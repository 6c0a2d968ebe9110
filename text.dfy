/** JavaScript's `String.prototype.trim`, which the tracker applies to a new habit's name. */
module Text {

  /** The code points `trim` strips: ECMAScript WhiteSpace (TAB, VT, FF, SP, NBSP, ZWNBSP
      and the Space_Separator category) and LineTerminator (LF, CR, LS, PS). The range TAB..CR
      is TAB, LF, VT, FF and CR. */
  predicate IsSpace(c: char) {
    c == ' ' || ('\t' <= c <= '\r') || c == '\U{00A0}' || c == '\U{1680}'
    || ('\U{2000}' <= c <= '\U{200A}') || c == '\U{2028}' || c == '\U{2029}'
    || c == '\U{202F}' || c == '\U{205F}' || c == '\U{3000}' || c == '\U{FEFF}'
  }

  /** Every character of `s` at a position in [lo, hi) is white space. */
  predicate SpacesIn(s: string, lo: int, hi: int)
    requires 0 <= lo && hi <= |s|
  {
    forall i :: lo <= i < hi ==> IsSpace(s[i])
  }

  /** The position of the first non-space at or after `i`, or `|s|` if there is none. */
  function FirstNonSpace(s: string, i: nat): (k: nat)
    requires i <= |s|
    ensures i <= k <= |s| && SpacesIn(s, i, k)
    ensures k < |s| ==> !IsSpace(s[k])
    decreases |s| - i
  {
    if i < |s| && IsSpace(s[i]) then FirstNonSpace(s, i + 1) else i
  }

  /** Scanning back from `j`, not below `lo`: the position just after the last non-space,
      or `lo` if there is none in between. */
  function EndOfText(s: string, lo: nat, j: nat): (k: nat)
    requires lo <= j <= |s|
    ensures lo <= k <= j && SpacesIn(s, k, j)
    ensures k > lo ==> !IsSpace(s[k - 1])
  {
    if j > lo && IsSpace(s[j - 1]) then EndOfText(s, lo, j - 1) else j
  }

  /** `s.trim()`: the text between the leading and the trailing white space. It is empty exactly
      when `s` is all white space, and otherwise starts and ends with a non-space. */
  function Trim(s: string): (r: string)
    ensures |r| <= |s|
    ensures r != [] ==> !IsSpace(r[0]) && !IsSpace(r[|r| - 1])
    ensures r == [] <==> SpacesIn(s, 0, |s|)
  {
    var a := FirstNonSpace(s, 0);
    var b := EndOfText(s, a, |s|);
    assert a == b ==> a == |s|;
    s[a..b]
  }

  /** Trim is determined by where the non-space text begins and ends: any cut of `s` into
      spaces, a part that starts and ends with a non-space, and spaces, yields that part. */
  lemma TrimIsCore(s: string, a: nat, b: nat)
    requires a <= b <= |s|
    requires SpacesIn(s, 0, a) && SpacesIn(s, b, |s|)
    requires a < b ==> !IsSpace(s[a]) && !IsSpace(s[b - 1])
    ensures Trim(s) == s[a..b]
  {
    if a == b {
      assert SpacesIn(s, 0, |s|) by {
        forall i | 0 <= i < |s| ensures IsSpace(s[i]) {
          if i >= a { assert b <= i; }
        }
      }
    } else {
      var a' := FirstNonSpace(s, 0);
      assert a' == a;
      var b' := EndOfText(s, a, |s|);
      assert b' == b;
    }
  }

  /** Trimming twice changes nothing more than trimming once. */
  lemma TrimIdempotent(s: string)
    ensures Trim(Trim(s)) == Trim(s)
  {
    var r := Trim(s);
    TrimIsCore(r, 0, |r|);
    assert r[0..|r|] == r;
  }
}
