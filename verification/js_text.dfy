/** The JavaScript string primitives the backend relies on: the white-space
    class shared by the regular-expression escape `\s` and by
    `String.prototype.trim`, `trim` itself, and `replace(/\r/g, "")`.
    A string is a sequence of `char`, one element per code unit. */
module JsText {

  /** WhiteSpace and LineTerminator code points of ECMA-262 (sections 12.2 and
      12.3): the set matched by `\s` and removed by `trim`. */
  predicate IsWhite(c: char) {
    || c == '\t' || c == '\n' || c == '\U{B}' || c == '\U{C}' || c == '\r' || c == ' '
    || c == '\U{A0}' || c == '\U{1680}' || ('\U{2000}' <= c <= '\U{200A}')
    || c == '\U{2028}' || c == '\U{2029}' || c == '\U{202F}' || c == '\U{205F}'
    || c == '\U{3000}' || c == '\U{FEFF}'
  }

  /** Every character is white space (the empty string included). */
  predicate Blank(s: string) {
    forall i :: 0 <= i < |s| ==> IsWhite(s[i])
  }

  /** Neither end of the string is white space. */
  predicate IsTrimmed(s: string) {
    s == [] || (!IsWhite(s[0]) && !IsWhite(s[|s| - 1]))
  }

  /** End of the maximal run of white space that starts at `i`. */
  function WhiteRunEnd(s: string, i: nat): (f: nat)
    requires i <= |s|
    ensures i <= f <= |s|
    ensures forall k :: i <= k < f ==> IsWhite(s[k])
    ensures f < |s| ==> !IsWhite(s[f])
    decreases |s| - i
  {
    if i < |s| && IsWhite(s[i]) then WhiteRunEnd(s, i + 1) else i
  }

  /** Start of the maximal run of white space that ends just before `j`. */
  function WhiteRunStart(s: string, j: nat): (t: nat)
    requires j <= |s|
    ensures t <= j
    ensures forall k :: t <= k < j ==> IsWhite(s[k])
    ensures t > 0 ==> !IsWhite(s[t - 1])
  {
    if j > 0 && IsWhite(s[j - 1]) then WhiteRunStart(s, j - 1) else j
  }

  /** `String.prototype.trim`: the text between the leading and the trailing
      white space. It starts and ends with ink, and it is empty exactly when
      `s` holds no ink at all. */
  function Trim(s: string): (r: string)
    ensures IsTrimmed(r)
    ensures r == [] <==> Blank(s)
  {
    var i := WhiteRunEnd(s, 0);
    var j := WhiteRunStart(s, |s|);
    if j <= i then [] else s[i..j]
  }

  /** What `Trim` cuts off is white space and only white space: `s` is a white
      prefix, then the result, then a white suffix; `i` is where the result
      starts. */
  lemma TrimCutsWhiteEnds(s: string) returns (i: nat)
    ensures i + |Trim(s)| <= |s| && Trim(s) == s[i..i + |Trim(s)|]
    ensures Blank(s[..i]) && Blank(s[i + |Trim(s)|..])
  {
    i := WhiteRunEnd(s, 0);
    var j := WhiteRunStart(s, |s|);
    if j <= i {
      i := 0;
      assert Blank(s[..0]) && Blank(s[0..]);
    } else {
      assert Trim(s) == s[i..j];
      assert Blank(s[..i]) && Blank(s[j..]);
    }
  }

  /** Trimming a string that already starts and ends with ink changes nothing. */
  lemma TrimTrimmed(s: string)
    requires IsTrimmed(s)
    ensures Trim(s) == s
  {
    if s != [] {
      assert WhiteRunEnd(s, 0) == 0;
      assert WhiteRunStart(s, |s|) == |s|;
    }
  }

  /** `s.replace(/\r/g, "")`: every carriage return removed, everything else
      kept in order. */
  function StripCR(s: string): (r: string)
    ensures |r| <= |s|
    ensures '\r' !in s ==> r == s
  {
    if s == [] then []
    else (if s[0] == '\r' then [] else [s[0]]) + StripCR(s[1..])
  }

  /** The result holds exactly the input's characters other than `\r`. */
  lemma {:induction false} StripCRChars(s: string)
    ensures forall c :: c in StripCR(s) <==> c in s && c != '\r'
  {
    if s != [] {
      StripCRChars(s[1..]);
      assert s == [s[0]] + s[1..];
    }
  }

  lemma {:induction false} StripCRConcat(a: string, b: string)
    ensures StripCR(a + b) == StripCR(a) + StripCR(b)
  {
    if a == [] {
      assert a + b == b;
    } else {
      var h := if a[0] == '\r' then [] else [a[0]];
      assert StripCR(a + b) == h + StripCR(a[1..] + b) by {
        assert (a + b)[0] == a[0];
        assert (a + b)[1..] == a[1..] + b;
      }
      StripCRConcat(a[1..], b);
      assert h + (StripCR(a[1..]) + StripCR(b)) == (h + StripCR(a[1..])) + StripCR(b);
    }
  }

  /** Removing carriage returns from a trimmed string leaves it trimmed: its
      first and last characters are ink, hence not `\r`, and survive. */
  lemma StripCRKeepsTrimmed(s: string)
    requires IsTrimmed(s)
    ensures IsTrimmed(StripCR(s))
  {
    if s != [] {
      var r := StripCR(s);
      assert r[0] == s[0];
      var n := |s| - 1;
      assert s == s[..n] + [s[n]];
      StripCRConcat(s[..n], [s[n]]);
      assert StripCR([s[n]]) == [s[n]];
      assert r[|r| - 1] == s[n];
    }
  }
}
