/**
 * The text of a notification (index.js:147-159): an ordinal, " and final"
 * on the last one of a cycle, then " notification".
 */
module Describe {
  import opened Results
  import opened Text

  /** What a notification announces: its position in the cycle and whether it is the last. */
  datatype Notice = Notice(index: int, final: bool)

  function Ordinal(n: int): string {
    if n == 1 then "1st"
    else if n == 2 then "2nd"
    else if n == 3 then "3rd"
    else ShowInt(n) + "th"
  }

  function Description(index: int, final: bool): string {
    Ordinal(index) + (if final then " and final" else "") + " notification"
  }

  /** The `value2` text of a notice's payload. */
  function Wording(n: Notice): string {
    Description(n.index, n.final)
  }

  /** Reads an ordinal of a positive index back. */
  function ParseOrdinal(o: string): Option<int> {
    if o == "1st" then Some(1)
    else if o == "2nd" then Some(2)
    else if o == "3rd" then Some(3)
    else if EndsWith(o, "th") && |o| > 2 && AllDigits(o[..|o| - 2]) then
      Some(DigitsValue(o[..|o| - 2]))
    else None
  }

  /** Reads a description back into its index and whether it was the last. */
  function ParseDescription(s: string): Option<(int, bool)> {
    if !EndsWith(s, " notification") then None
    else
      var body := s[..|s| - |" notification"|];
      var final := EndsWith(body, " and final");
      var ordinal := if final then body[..|body| - |" and final"|] else body;
      match ParseOrdinal(ordinal)
      case None => None
      case Some(n) => Some((n, final))
  }

  lemma {:induction false} ParseOrdinalRoundTrip(n: int)
    requires n >= 1
    ensures ParseOrdinal(Ordinal(n)) == Some(n)
  {
    if n > 3 {
      var o := Ordinal(n);
      assert o == ShowNat(n) + "th";
      assert o[..|o| - 2] == ShowNat(n);
      assert o[|o| - 2..] == "th";
      DigitsValueShowNat(n);
    }
  }

  /** An ordinal ends in a letter other than the one " and final" ends in. */
  lemma OrdinalEndsInLetter(n: int)
    requires n >= 1
    ensures |Ordinal(n)| >= 1 && Ordinal(n)[|Ordinal(n)| - 1] != 'l'
  {
    if n > 3 {
      var o := Ordinal(n);
      assert o == ShowNat(n) + "th";
      assert o[|o| - 1] == 'h';
    }
  }

  /**
   * A description determines its index and whether it announced the end
   * of the cycle: " and final" appears exactly on the final one.
   */
  lemma {:induction false} DescriptionRoundTrip(index: int, final: bool)
    requires index >= 1
    ensures ParseDescription(Description(index, final)) == Some((index, final))
  {
    var o := Ordinal(index);
    var mid := if final then " and final" else "";
    var s := Description(index, final);
    assert s == (o + mid) + " notification";
    assert s[|s| - |" notification"|..] == " notification";
    var body := s[..|s| - |" notification"|];
    assert body == o + mid;
    ParseOrdinalRoundTrip(index);
    OrdinalEndsInLetter(index);
    if final {
      assert body[|body| - |" and final"|..] == " and final";
      assert body[..|body| - |" and final"|] == o;
    } else {
      assert body == o;
      assert body[|body| - 1] != " and final"[|" and final"| - 1];
    }
  }

  /** Two notifications with different indices or finality never read alike. */
  lemma DescriptionInjective(i: int, f: bool, j: int, g: bool)
    requires i >= 1 && j >= 1
    requires Description(i, f) == Description(j, g)
    ensures i == j && f == g
  {
    DescriptionRoundTrip(i, f);
    DescriptionRoundTrip(j, g);
  }
}
