/** The left-pad helper of app/core/lib/strings.ts. */
module Strings {
  import JsString

  /** `pad(subject, width, padChar)`; `width` is taken to be an integer. */
  function Pad(subject: string, width: int, padChar: string): (r: string)
    ensures |r| >= |subject| && |r| >= width
    ensures r[|r| - |subject|..] == subject
    ensures |subject| < width ==> r[0] == (if padChar == "" then '0' else padChar[0])
  {
    var fill := if padChar == "" then "0" else padChar;
    if |subject| >= width then subject
    else
      var n := width - |subject|;
      var pad := JsString.Repeat(fill, n);
      assert |pad| >= n by {
        assert |fill| >= 1;
        assert n * |fill| >= n * 1;
      }
      assert pad[0] == fill[0 % |fill|];
      pad + subject
  }

  /** An empty pad character means "0". */
  lemma PadEmptyFill(subject: string, width: int)
    ensures Pad(subject, width, "") == Pad(subject, width, "0")
  {
  }

  /** A subject at least `width` long comes back unchanged. */
  lemma PadWideEnough(subject: string, width: int, padChar: string)
    requires |subject| >= width
    ensures Pad(subject, width, padChar) == subject
  {
  }

  /**
   * A shorter subject is preceded by exactly `width - |subject|` copies of the
   * pad character: the result always ends with the subject, and everything
   * before it cycles through the pad text.
   */
  lemma PadShape(subject: string, width: int, padChar: string)
    ensures var r := Pad(subject, width, padChar);
      var fill := if padChar == "" then "0" else padChar;
      var n := if |subject| >= width then 0 else width - |subject|;
      |r| == n * |fill| + |subject| &&
      r[n * |fill|..] == subject &&
      forall k :: 0 <= k < n * |fill| ==> r[k] == fill[k % |fill|]
  {
  }

  /** With a one-character pad the result is exactly max(width, |subject|) long. */
  lemma PadLength(subject: string, width: int, padChar: string)
    requires |padChar| <= 1
    ensures var r := Pad(subject, width, padChar);
      |r| == (if width > |subject| then width else |subject|) &&
      forall k :: 0 <= k < |r| - |subject| ==> r[k] == (if padChar == "" then '0' else padChar[0])
  {
    if |subject| < width {
      var fill := if padChar == "" then "0" else padChar;
      var n := width - |subject|;
      var r := Pad(subject, width, padChar);
      assert |fill| == 1;
      assert r == JsString.Repeat(fill, n) + subject;
      forall k | 0 <= k < n ensures r[k] == fill[0] {
        assert r[k] == JsString.Repeat(fill, n)[k];
        assert k % 1 == 0;
      }
    }
  }
}
