/**
 * The value computations of `init` and `_generateOptionCountWorkaround`:
 * the placeholder suffix, the label id, and how many marker options the
 * ordinal workaround appends.
 */
module Annotations {
  import opened Wrappers

  /** The placeholder option as the page passes it: missing, `null`, or a string. */
  datatype PlaceholderOption = Missing | Null | Text(text: string)

  const CustomSuffix: string := " (custom)"

  /** JavaScript's string conversion of the placeholder before `+=`. */
  function PlaceholderBase(p: PlaceholderOption): string {
    match p
    case Missing => "undefined"
    case Null => "null"
    case Text(t) => t
  }

  /**
   * `extendedOptions.placeholder += " (custom)"`: the placeholder gains the
   * suffix, and an absent or null placeholder turns into the words
   * "undefined" or "null" followed by the suffix.
   */
  function PlaceholderText(p: PlaceholderOption): string {
    PlaceholderBase(p) + CustomSuffix
  }

  /**
   * The placeholder keeps its text as a prefix and ends in the suffix; an
   * absent one reads "undefined (custom)" and a null one "null (custom)".
   */
  lemma PlaceholderTextShape(p: PlaceholderOption)
    ensures var r := PlaceholderText(p);
            && |r| == |PlaceholderBase(p)| + |CustomSuffix|
            && r[|r| - |CustomSuffix|..] == CustomSuffix
            && (p.Text? ==> r[..|p.text|] == p.text)
            && (p.Missing? ==> r == "undefined (custom)")
            && (p.Null? ==> r == "null (custom)")
  {
    var r := PlaceholderText(p);
    assert r[|r| - |CustomSuffix|..] == CustomSuffix;
    if p.Text? {
      assert r[..|p.text|] == p.text;
    }
  }

  /** A page that reuses its options object collects the suffix once per widget. */
  lemma PlaceholderReused(t: string)
    ensures PlaceholderText(Text(PlaceholderText(Text(t)))) == t + " (custom) (custom)"
  {
  }

  /** The text an attribute read yields for string concatenation: an absent attribute is `undefined`. */
  function AttrText(a: Option<string>): string {
    match a
    case Some(s) => s
    case None => "undefined"
  }

  /**
   * The id `aria-labelledby` points to: the label's own id when it has a
   * non-empty one, otherwise `elementId + "_label"`.
   */
  function LabelId(existing: Option<string>, elementId: Option<string>): string {
    if existing.Some? && existing.value != "" then existing.value
    else AttrText(elementId) + "_label"
  }

  /**
   * A non-empty existing id is kept; otherwise the id is the element's id
   * followed by "_label", or "undefined_label" when the element has none.
   */
  lemma LabelIdCases(existing: Option<string>, elementId: Option<string>)
    ensures var r := LabelId(existing, elementId);
            && (existing.Some? && existing.value != "" ==> r == existing.value)
            && (existing.None? || existing.value == "" ==>
                  && |r| == |AttrText(elementId)| + 6
                  && r[..|AttrText(elementId)|] == AttrText(elementId)
                  && r[|r| - 6..] == "_label")
            && (elementId.None? && (existing.None? || existing.value == "") ==> r == "undefined_label")
  {
    var r := LabelId(existing, elementId);
    if existing.None? || existing.value == "" {
      assert r[..|AttrText(elementId)|] == AttrText(elementId);
      assert r[|r| - 6..] == "_label";
    }
  }

  /**
   * The id given to the generated input: the DOM property `id`, which is the
   * empty string when the element has none, followed by "-kinput".
   */
  function KInputId(elementId: Option<string>): string {
    elementId.GetOr("") + "-kinput"
  }

  /** The input's id is the element's id, or nothing, followed by "-kinput". */
  lemma KInputIdShape(elementId: Option<string>)
    ensures var r := KInputId(elementId);
            && |r| == |elementId.GetOr("")| + 7
            && r[..|elementId.GetOr("")|] == elementId.GetOr("")
            && r[|r| - 7..] == "-kinput"
            && (elementId.None? ==> r == "-kinput")
  {
    var r := KInputId(elementId);
    assert r[..|elementId.GetOr("")|] == elementId.GetOr("");
    assert r[|r| - 7..] == "-kinput";
  }

  /** Safari already counts one option more, so it gets one marker fewer. */
  function OptionOffset(isSafari: bool): (k: nat)
    ensures 1 <= k <= 2 && (k == 2 <==> isSafari)
  {
    if isSafari then 2 else 1
  }

  /**
   * How often `for (i = 0; i < optionCount - optionOffset; i++)` runs:
   * optionCount - offset when that is positive, and zero otherwise.
   */
  function MarkerCount(optionCount: nat, isSafari: bool): (n: nat)
    ensures n > 0 ==> n + OptionOffset(isSafari) == optionCount
    ensures n == 0 <==> optionCount <= OptionOffset(isSafari)
  {
    if optionCount > OptionOffset(isSafari) then optionCount - OptionOffset(isSafari) else 0
  }
}
