/** Whitespace trimming as Python's `str.strip()` does it when called without an argument: scan
    from the left past whitespace, scan from the right back past whitespace, keep what lies
    between the two positions. */
module Text {

  /** Python's `str.isspace()` on one character: the ASCII whitespace characters, the four
      ASCII separators 0x1C-0x1F and the Unicode space and line/paragraph separators. */
  function IsSpace(c: char): (b: bool)
    ensures c in " \t\n\r\U{B}\U{C}" ==> b
    ensures b ==> c as int <= 0x3000 && c != '\U{180E}' && c != '\U{200B}' && c != '\U{FEFF}'
  {
    || c == ' '
    || '\t' <= c <= '\r'
    || '\U{1C}' <= c <= '\U{1F}'
    || c == '\U{85}'
    || c == '\U{A0}'
    || c == '\U{1680}'
    || '\U{2000}' <= c <= '\U{200A}'
    || c == '\U{2028}'
    || c == '\U{2029}'
    || c == '\U{202F}'
    || c == '\U{205F}'
    || c == '\U{3000}'
  }

  /** Every character of `s` is whitespace (the empty string included). */
  predicate Blank(s: string)
  {
    forall i :: 0 <= i < |s| ==> IsSpace(s[i])
  }

  /** `s` is empty or neither starts nor ends with whitespace: the shape of what `strip()` returns. */
  predicate Stripped(s: string)
  {
    s == [] || (!IsSpace(s[0]) && !IsSpace(s[|s| - 1]))
  }

  /** The left scan: the position of the first non-whitespace character, `|s|` if there is none. */
  function SpanStart(s: string): (lo: nat)
    ensures lo <= |s|
    ensures forall i :: 0 <= i < lo ==> IsSpace(s[i])
    ensures lo < |s| ==> !IsSpace(s[lo])
  {
    if |s| > 0 && IsSpace(s[0]) then 1 + SpanStart(s[1..]) else 0
  }

  /** The right scan: one past the last non-whitespace character, 0 if there is none. */
  function SpanEnd(s: string): (hi: nat)
    ensures hi <= |s|
    ensures forall i :: hi <= i < |s| ==> IsSpace(s[i])
    ensures 0 < hi ==> !IsSpace(s[hi - 1])
  {
    if |s| > 0 && IsSpace(s[|s| - 1]) then SpanEnd(s[..|s| - 1]) else |s|
  }

  /** The left scan is the only position with whitespace before it and none at it. */
  lemma SpanStartUnique(s: string, k: nat)
    requires k <= |s|
    requires forall i :: 0 <= i < k ==> IsSpace(s[i])
    requires k < |s| ==> !IsSpace(s[k])
    ensures SpanStart(s) == k
  {
  }

  /** The right scan is the only position with whitespace after it and none just before it. */
  lemma SpanEndUnique(s: string, k: nat)
    requires k <= |s|
    requires forall i :: k <= i < |s| ==> IsSpace(s[i])
    requires 0 < k ==> !IsSpace(s[k - 1])
    ensures SpanEnd(s) == k
  {
  }

  /** `s.strip()`: empty exactly when `s` is blank, otherwise with no whitespace at either end. */
  function Strip(s: string): (r: string)
    ensures |r| <= |s|
    ensures r == [] <==> Blank(s)
    ensures Stripped(r)
  {
    var lo := SpanStart(s);
    if lo == |s| then
      []
    else
      var hi := SpanEnd(s);
      s[lo..hi]
  }

  /** The part `strip()` keeps is the run of `s` that starts at the left scan, with nothing but
      whitespace on either side of it. */
  lemma StripSlice(s: string)
    ensures SpanStart(s) + |Strip(s)| <= |s|
    ensures Strip(s) == s[SpanStart(s)..SpanStart(s) + |Strip(s)|]
    ensures forall i :: 0 <= i < SpanStart(s) ==> IsSpace(s[i])
    ensures forall i :: SpanStart(s) + |Strip(s)| <= i < |s| ==> IsSpace(s[i])
  {
    var lo := SpanStart(s);
    if lo == |s| {
      assert Strip(s) == [];
    } else {
      var hi := SpanEnd(s);
      assert Strip(s) == s[lo..hi];
    }
  }

  /** `strip()` is fully determined by its contract: whenever `s` is a blank prefix, a middle
      part with no whitespace at its ends, and a blank suffix, stripping gives the middle part. */
  lemma StripCharacterization(pre: string, mid: string, post: string)
    requires Blank(pre) && Blank(post) && Stripped(mid)
    ensures Strip(pre + mid + post) == mid
  {
    var s := pre + mid + post;
    if mid == [] {
      assert Blank(s) by {
        forall i | 0 <= i < |s| ensures IsSpace(s[i]) {
          if i < |pre| { assert s[i] == pre[i]; } else { assert s[i] == post[i - |pre|]; }
        }
      }
    } else {
      var lo, hi := |pre|, |pre| + |mid|;
      assert s[lo] == mid[0] && s[hi - 1] == mid[|mid| - 1];
      assert forall i :: 0 <= i < lo ==> s[i] == pre[i];
      assert forall i :: hi <= i < |s| ==> s[i] == post[i - hi];
      SpanStartUnique(s, lo);
      SpanEndUnique(s, hi);
      assert s[lo..hi] == mid;
    }
  }

  /** Stripping twice is stripping once. */
  lemma StripIdempotent(s: string)
    ensures Strip(Strip(s)) == Strip(s)
  {
    var r := Strip(s);
    assert [] + r + [] == r;
    StripCharacterization([], r, []);
  }
}
