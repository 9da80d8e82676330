/**
 * The text field's value and visibility state (src/components/InputField.tsx, lines 46-51,
 * 68-74, 106-125). The props a render passes in are a Props value; the state the field keeps
 * between renders (`internal` and `showPassword`) lives in a Field object. Each handler returns
 * the value it hands to `onChange`, or None when it does not call it.
 */
module InputField {
  import opened Wrappers

  /** The props that decide behaviour; `inputType` already carries the default "text". */
  datatype Props = Props(value: Option<string>, inputType: string, disabled: bool, loading: bool)

  /** `isControlled`: the caller supplies the value. */
  predicate IsControlled(p: Props)
  {
    p.value.Some?
  }

  predicate IsPassword(p: Props)
  {
    p.inputType == "password"
  }

  class Field {
    /** The fallback value used when the field is uncontrolled. */
    var internal: string
    var showPassword: bool

    /** A freshly mounted field: empty fallback value, password hidden. */
    constructor ()
      ensures internal == "" && !showPassword
    {
      internal := "";
      showPassword := false;
    }

    /** `current`: the caller's value when controlled, the fallback value otherwise. */
    function Current(p: Props): (current: string)
      reads this
      ensures IsControlled(p) ==> current == p.value.value
      ensures !IsControlled(p) ==> current == internal
    {
      if IsControlled(p) then p.value.value else internal
    }

    /**
     * `effectiveType`: a password field is shown as text while its password is visible; every
     * other type is passed through.
     */
    function EffectiveType(p: Props): (t: string)
      reads this
      ensures t == p.inputType || t == "text"
      ensures t == "password" <==> IsPassword(p) && !showPassword
      ensures t == "text" <==> p.inputType == "text" || (IsPassword(p) && showPassword)
    {
      if IsPassword(p) && showPassword then "text" else p.inputType
    }

    /** `showClear`: there is something to clear and the field accepts input. */
    predicate ShowClear(p: Props)
      reads this
    {
      Current(p) != "" && !p.disabled && !p.loading
    }

    /** The clear button is rendered for a clearable field that is not a password field. */
    predicate ClearOffered(p: Props)
      reads this
    {
      ShowClear(p) && !IsPassword(p)
    }

    /** `handleChange`: always notifies; only an uncontrolled field stores the new value. */
    method HandleChange(p: Props, v: string) returns (notified: string)
      modifies this`internal
      ensures notified == v
      ensures internal == if IsControlled(p) then old(internal) else v
      ensures Current(p) == if IsControlled(p) then p.value.value else v
    {
      notified := v;
      if !IsControlled(p) {
        internal := v;
      }
    }

    /** The visibility button, rendered only for a password field, flips `showPassword` and nothing else. */
    method TogglePassword(p: Props)
      requires IsPassword(p)
      modifies this`showPassword
      ensures showPassword == !old(showPassword)
      ensures Current(p) == old(Current(p))
      ensures EffectiveType(p) == if showPassword then "text" else "password"
    {
      showPassword := !showPassword;
    }

    /**
     * The clear button: a controlled field asks its caller for "" and keeps its fallback value;
     * an uncontrolled field empties its fallback value without calling `onChange`.
     */
    method Clear(p: Props) returns (notified: Option<string>)
      requires ClearOffered(p)
      modifies this`internal
      ensures IsControlled(p) ==> notified == Some("") && internal == old(internal)
      ensures !IsControlled(p) ==> notified == None && internal == "" && Current(p) == "" && !ShowClear(p)
    {
      if IsControlled(p) {
        notified := Some("");
      } else {
        internal := "";
        notified := None;
      }
    }
  }

  /** Two clicks on the visibility button restore both the flag and the displayed type. */
  method TogglePasswordTwice(f: Field, p: Props)
    requires IsPassword(p)
    modifies f
    ensures f.showPassword == old(f.showPassword) && f.internal == old(f.internal)
    ensures f.EffectiveType(p) == old(f.EffectiveType(p))
  {
    f.TogglePassword(p);
    f.TogglePassword(p);
  }

  /**
   * An uncontrolled, enabled text field: typing "ab" shows it and offers the clear button;
   * clearing empties it and hides the button again, without notifying.
   */
  method UncontrolledScenario() returns (typed: string, clearable: bool, cleared: string, stillClearable: bool, notified: Option<string>)
    ensures typed == "ab" && clearable
    ensures cleared == "" && !stillClearable && notified == None
  {
    var p := Props(None, "text", false, false);
    var f := new Field();
    var _ := f.HandleChange(p, "ab");
    typed := f.Current(p);
    clearable := f.ShowClear(p);
    notified := f.Clear(p);
    cleared := f.Current(p);
    stillClearable := f.ShowClear(p);
  }

  /** A controlled field: the clear button asks for "" while the displayed value stays the caller's. */
  method ControlledClearScenario(v: string) returns (notified: Option<string>, shown: string)
    requires v != ""
    ensures notified == Some("") && shown == v
  {
    var p := Props(Some(v), "text", false, false);
    var f := new Field();
    notified := f.Clear(p);
    shown := f.Current(p);
  }
}
