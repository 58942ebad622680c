/** String helpers the editor relies on: JavaScript's `String.prototype.trim`
    and the left-to-right joining that its string-building loops perform. */
module Text {

  /** The white-space characters `trim` strips: tab, vertical tab, form
      feed, the byte-order mark, the space separators of Unicode category
      Zs, and the four line terminators. */
  predicate IsSpace(c: char) {
    c == ' ' || c == '\t' || c == '\n' || c == '\r' || c == '\U{000B}' || c == '\U{000C}'
    || c == '\U{00A0}' || c == '\U{1680}' || ('\U{2000}' <= c <= '\U{200A}')
    || c == '\U{202F}' || c == '\U{205F}' || c == '\U{3000}' || c == '\U{FEFF}'
    || c == '\U{2028}' || c == '\U{2029}'
  }

  predicate AllSpace(s: string) {
    forall i :: 0 <= i < |s| ==> IsSpace(s[i])
  }

  /** The number of white-space characters `s` starts with. */
  function LeadingSpace(s: string): (n: nat)
    ensures n <= |s|
    ensures forall k :: 0 <= k < n ==> IsSpace(s[k])
    ensures n < |s| ==> !IsSpace(s[n])
  {
    if |s| > 0 && IsSpace(s[0]) then 1 + LeadingSpace(s[1..]) else 0
  }

  /** The number of white-space characters `s` ends with. */
  function TrailingSpace(s: string): (n: nat)
    ensures n <= |s|
    ensures forall k :: |s| - n <= k < |s| ==> IsSpace(s[k])
    ensures n < |s| ==> !IsSpace(s[|s| - n - 1])
  {
    if |s| > 0 && IsSpace(s[|s| - 1]) then 1 + TrailingSpace(s[..|s| - 1]) else 0
  }

  /** `s[lo..hi]` is what is left of `s` once its white space is cut off
      at both ends: everything outside is white space and, unless nothing
      is left, the kept part starts and ends with something else. */
  predicate TrimmedAt(s: string, lo: int, hi: int) {
    0 <= lo <= hi <= |s|
    && (forall k :: 0 <= k < lo ==> IsSpace(s[k]))
    && (forall k :: hi <= k < |s| ==> IsSpace(s[k]))
    && (lo < hi ==> !IsSpace(s[lo]) && !IsSpace(s[hi - 1]))
  }

  /** JavaScript's `trim`: the infix of `s` that remains once the white
      space at both ends is cut off. */
  function Trim(s: string): (r: string)
    ensures exists lo, hi :: TrimmedAt(s, lo, hi) && r == s[lo..hi]
    ensures |r| > 0 ==> !IsSpace(r[0]) && !IsSpace(r[|r| - 1])
  {
    var lo := LeadingSpace(s);
    if lo == |s| then
      assert TrimmedAt(s, 0, 0) && s[0..0] == "";
      ""
    else
      var hi := |s| - TrailingSpace(s);
      assert lo < hi;
      assert TrimmedAt(s, lo, hi);
      s[lo..hi]
  }

  /** The cut is determined by `s`: any bounds that trim `s` and keep
      something select exactly `Trim(s)`. */
  lemma TrimmedAtUnique(s: string, lo: int, hi: int)
    requires TrimmedAt(s, lo, hi) && lo < hi
    ensures Trim(s) == s[lo..hi]
  {
    assert LeadingSpace(s) == lo;
    assert |s| - TrailingSpace(s) == hi;
  }

  /** A string trims to nothing exactly when it is all white space. */
  lemma TrimEmptyIffAllSpace(s: string)
    ensures Trim(s) == "" <==> AllSpace(s)
  {
    if Trim(s) == "" {
      var lo, hi :| TrimmedAt(s, lo, hi) && "" == s[lo..hi];
      assert lo == hi;
    }
    if AllSpace(s) {
      assert LeadingSpace(s) == |s|;
    }
  }

  /** A string with no space at either end is its own trim. */
  lemma TrimOfTrimmed(s: string)
    requires |s| > 0 && !IsSpace(s[0]) && !IsSpace(s[|s| - 1])
    ensures Trim(s) == s && !AllSpace(s)
  {
    assert TrimmedAt(s, 0, |s|);
    TrimmedAtUnique(s, 0, |s|);
  }

  /** Trimming twice trims no further. */
  lemma TrimIdempotent(s: string)
    ensures Trim(Trim(s)) == Trim(s)
  {
    var r := Trim(s);
    if |r| > 0 {
      TrimOfTrimmed(r);
    }
  }

  /** `parts` separated by `sep`, as a loop that prefixes every item but the
      first with the separator produces it. */
  function Join(parts: seq<string>, sep: string): string
  {
    if |parts| == 0 then ""
    else if |parts| == 1 then parts[0]
    else parts[0] + sep + Join(parts[1..], sep)
  }

  /** All of `parts` one after the other. */
  function Concat(parts: seq<string>): string
  {
    if |parts| == 0 then "" else parts[0] + Concat(parts[1..])
  }

  /** Appending one more item to a non-empty join adds the separator and
      the item at the end: the step of a left-to-right building loop. */
  lemma {:induction false} JoinSnoc(parts: seq<string>, sep: string, last: string)
    requires |parts| > 0
    ensures Join(parts + [last], sep) == Join(parts, sep) + sep + last
    decreases |parts|
  {
    if |parts| == 1 {
      assert (parts + [last])[1..] == [last];
    } else {
      assert (parts + [last])[1..] == parts[1..] + [last];
      JoinSnoc(parts[1..], sep, last);
    }
  }

  /** Appending one more item to a concatenation adds it at the end. */
  lemma {:induction false} ConcatSnoc(parts: seq<string>, last: string)
    ensures Concat(parts + [last]) == Concat(parts) + last
    decreases |parts|
  {
    if |parts| == 0 {
      assert parts + [last] == [last];
    } else {
      assert (parts + [last])[1..] == parts[1..] + [last];
      ConcatSnoc(parts[1..], last);
    }
  }
}
