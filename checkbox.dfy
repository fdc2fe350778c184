/** The derived state of the Checkbox component (Checkbox.tsx:35-68): the
    tri-state `aria-checked`, the label id, the colour, the attributes that
    mirror the flags, and the gating of the change callback by `disabled`
    and by the key pressed. */
module CheckboxState {
  import opened Options

  /** The props the component reads. Optional flags are `None` when absent;
      the destructuring gives each of them the default `false`. */
  datatype Props = Props(
    checked: Option<bool>,
    disabled: Option<bool>,
    error: Option<bool>,
    indeterminate: Option<bool>,
    labelText: string)

  /** A destructuring default: the value when given, else `false`. */
  function Flag(o: Option<bool>): bool {
    if o.Some? then o.value else false
  }

  /** `hasValue` (Checkbox.tsx:51). */
  function HasValue(p: Props): bool {
    Flag(p.checked) || Flag(p.indeterminate)
  }

  /** `ariaChecked` (Checkbox.tsx:52-56). */
  function AriaChecked(p: Props): string {
    if !Flag(p.indeterminate) then (if Flag(p.checked) then "true" else "false") else "mixed"
  }

  /** The characters JavaScript's `\s` matches: the ECMAScript WhiteSpace and
      LineTerminator code points. */
  predicate IsWhitespace(c: char) {
    var n := c as int;
    n == 0x09 || n == 0x0A || n == 0x0B || n == 0x0C || n == 0x0D || n == 0x20
    || n == 0xA0 || n == 0x1680 || (0x2000 <= n <= 0x200A)
    || n == 0x2028 || n == 0x2029 || n == 0x202F || n == 0x205F
    || n == 0x3000 || n == 0xFEFF
  }

  /** `label.replace(/\s/g, '-')` (Checkbox.tsx:57). */
  function LabelId(text: string): (r: string)
    ensures |r| == |text|
    ensures forall i :: 0 <= i < |text| ==> r[i] == if IsWhitespace(text[i]) then '-' else text[i]
  {
    if text == [] then []
    else [if IsWhitespace(text[0]) then '-' else text[0]] + LabelId(text[1..])
  }

  /** `color` (Checkbox.tsx:58). */
  function Color(p: Props): string {
    if !Flag(p.error) then "emerald" else "rose"
  }

  /** How React writes a boolean into an `aria-*` attribute. */
  function BoolAttribute(b: bool): string {
    if b then "true" else "false"
  }

  /** `aria-invalid={error}` (Checkbox.tsx:75). */
  function AriaInvalid(p: Props): string {
    BoolAttribute(Flag(p.error))
  }

  /** `aria-disabled={disabled}` (Checkbox.tsx:74). */
  function AriaDisabled(p: Props): string {
    BoolAttribute(Flag(p.disabled))
  }

  /** `handleChange` (Checkbox.tsx:60-62): `onChange` runs on the caller's
      state unless the checkbox is disabled. */
  function HandleChange<S>(p: Props, s: S, onChange: S -> S): S {
    if !Flag(p.disabled) then onChange(s) else s
  }

  /** `handleKeyDown(key)` (Checkbox.tsx:64-68). */
  function HandleKeyDown<S>(p: Props, key: string, s: S, onChange: S -> S): S {
    if !Flag(p.disabled) && key in [" ", "Enter"] then HandleChange(p, s, onChange) else s
  }

  /** Absent flags read as `false`: an unconfigured checkbox is unchecked,
      enabled and valid. */
  lemma DefaultsAreFalse(text: string)
    ensures var p := Props(None, None, None, None, text);
            && AriaChecked(p) == "false" && !HasValue(p)
            && Color(p) == "emerald" && AriaInvalid(p) == "false" && AriaDisabled(p) == "false"
  {
  }

  /** `aria-checked` is "mixed" exactly when `indeterminate` is set, whatever
      `checked` says; otherwise it is "true" exactly when `checked` is. */
  lemma AriaCheckedStates(p: Props)
    ensures AriaChecked(p) in {"true", "false", "mixed"}
    ensures AriaChecked(p) == "mixed" <==> Flag(p.indeterminate)
    ensures AriaChecked(p) == "true" <==> !Flag(p.indeterminate) && Flag(p.checked)
    ensures AriaChecked(p) == "false" <==> !Flag(p.indeterminate) && !Flag(p.checked)
  {
  }

  /** A value is shown (a check mark or a dash) exactly when `aria-checked`
      is not "false". */
  lemma HasValueMatchesAriaChecked(p: Props)
    ensures HasValue(p) <==> AriaChecked(p) != "false"
  {
  }

  /** The label id keeps the length, holds no whitespace, and differs from
      the label only where the label had whitespace. */
  lemma LabelIdHasNoWhitespace(text: string)
    ensures forall i :: 0 <= i < |LabelId(text)| ==> !IsWhitespace(LabelId(text)[i])
    ensures forall i :: 0 <= i < |text| && !IsWhitespace(text[i]) ==> LabelId(text)[i] == text[i]
  {
    assert !IsWhitespace('-');
  }

  /** Rewriting twice changes nothing more, and a label without whitespace
      is its own id. */
  lemma LabelIdIdempotent(text: string)
    ensures LabelId(LabelId(text)) == LabelId(text)
    ensures (forall i :: 0 <= i < |text| ==> !IsWhitespace(text[i])) ==> LabelId(text) == text
  {
    LabelIdHasNoWhitespace(text);
  }

  /** The colour is "rose" exactly when `error` is set, else "emerald"; the
      `aria-invalid` and `aria-disabled` attributes mirror the flags. */
  lemma ColorAndMirrors(p: Props)
    ensures Color(p) == "rose" <==> Flag(p.error)
    ensures Color(p) == "emerald" <==> !Flag(p.error)
    ensures AriaInvalid(p) == "true" <==> Flag(p.error)
    ensures AriaDisabled(p) == "true" <==> Flag(p.disabled)
  {
  }

  /** Counting the calls with a counter as the state: a disabled checkbox
      never calls `onChange`; an enabled one calls it exactly once. */
  lemma ChangeCallsOnce(p: Props, calls: nat)
    ensures HandleChange(p, calls, n => n + 1) == calls + (if Flag(p.disabled) then 0 else 1)
  {
  }

  /** Only " " and "Enter" act, and then as a click does; every other key,
      and every key on a disabled checkbox, leaves the state alone. */
  lemma KeyDownGating<S>(p: Props, key: string, s: S, onChange: S -> S)
    ensures key == " " || key == "Enter" ==> HandleKeyDown(p, key, s, onChange) == HandleChange(p, s, onChange)
    ensures key != " " && key != "Enter" ==> HandleKeyDown(p, key, s, onChange) == s
    ensures Flag(p.disabled) ==> HandleKeyDown(p, key, s, onChange) == s
  {
  }

  /** The controlled wrapper of the component tests: the parent keeps
      `checked` and its `onChange` negates it. A click flips `aria-checked`
      between "false" and "true" unless the checkbox is disabled, in which
      case it stays; two clicks restore it. */
  lemma ControlledClick(p: Props, checked: bool)
    requires !Flag(p.indeterminate)
    ensures var after := HandleChange(p, checked, c => !c);
            && AriaChecked(p.(checked := Some(after))) == BoolAttribute(if Flag(p.disabled) then checked else !checked)
            && HandleChange(p, after, c => !c) == checked
  {
  }
}
