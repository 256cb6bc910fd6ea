/** Character-level facts that several components share. */
module Text {

  /** Lexicographic order by code point: how the program and its databases compare texts. */
  predicate Less(a: string, b: string) {
    b != [] && (a == [] || a[0] < b[0] || (a[0] == b[0] && Less(a[1..], b[1..])))
  }

  predicate AtMost(a: string, b: string) {
    a == b || Less(a, b)
  }

  lemma {:induction false} LessIsIrreflexive(a: string)
    ensures !Less(a, a)
  {
    if a != [] {
      LessIsIrreflexive(a[1..]);
    }
  }

  lemma {:induction false} LessIsTransitive(a: string, b: string, c: string)
    requires Less(a, b) && Less(b, c)
    ensures Less(a, c)
  {
    if a != [] && a[0] == b[0] && b[0] == c[0] {
      LessIsTransitive(a[1..], b[1..], c[1..]);
    }
  }

  lemma {:induction false} LessIsTotal(a: string, b: string)
    ensures Less(a, b) || a == b || Less(b, a)
  {
    if a != [] && b != [] && a[0] == b[0] {
      LessIsTotal(a[1..], b[1..]);
      assert a == [a[0]] + a[1..] && b == [b[0]] + b[1..];
    }
  }

  /** Where two texts first differ decides. */
  lemma {:induction false} LessAt(a: string, b: string, n: nat)
    requires n < |a| && n < |b| && a[..n] == b[..n] && a[n] != b[n]
    ensures Less(a, b) <==> a[n] < b[n]
  {
    if n > 0 {
      assert a[0] == a[..n][0] && b[0] == b[..n][0];
      assert a[1..][..n - 1] == a[..n][1..] && b[1..][..n - 1] == b[..n][1..];
      LessAt(a[1..], b[1..], n - 1);
    }
  }

  /** The characters `strip` removes: white space in the Unicode sense, and the four separator controls. */
  predicate IsSpace(c: char) {
    var n := c as int;
    || 0x09 <= n <= 0x0D || 0x1C <= n <= 0x20 || n == 0x85 || n == 0xA0 || n == 0x1680 || 0x2000 <= n <= 0x200A
    || n == 0x2028 || n == 0x2029 || n == 0x202F || n == 0x205F || n == 0x3000
  }

  /** Leading and trailing white space removed. */
  function Strip(s: string): (r: string)
    ensures |r| <= |s|
    ensures r != [] ==> !IsSpace(r[0]) && !IsSpace(r[|r| - 1])
  {
    if s == [] then []
    else if IsSpace(s[0]) then Strip(s[1..])
    else if IsSpace(s[|s| - 1]) then Strip(s[..|s| - 1])
    else s
  }

  /** White space and nothing else before `i` and from `j` on. */
  ghost predicate BlankOutside(s: string, i: nat, j: nat) {
    i <= j <= |s| && forall k :: 0 <= k < |s| && !(i <= k < j) ==> IsSpace(s[k])
  }

  lemma BlankInFront(s: string, i: nat, j: nat)
    requires s != "" && IsSpace(s[0]) && BlankOutside(s[1..], i, j)
    ensures BlankOutside(s, i + 1, j + 1) && s[1..][i..j] == s[i + 1..j + 1]
  {
    forall k | 0 < k < |s| && !(i + 1 <= k < j + 1) ensures IsSpace(s[k]) {
      assert s[k] == s[1..][k - 1];
    }
  }

  lemma BlankBehind(s: string, i: nat, j: nat)
    requires s != "" && IsSpace(s[|s| - 1]) && BlankOutside(s[..|s| - 1], i, j)
    ensures BlankOutside(s, i, j) && s[..|s| - 1][i..j] == s[i..j]
  {
    forall k | 0 <= k < |s| - 1 && !(i <= k < j) ensures IsSpace(s[k]) {
      assert s[k] == s[..|s| - 1][k];
    }
  }

  /** Stripping takes white space off both ends and leaves the rest as it stands. */
  lemma {:induction false} StripIsMiddle(s: string) returns (i: nat, j: nat)
    ensures BlankOutside(s, i, j) && Strip(s) == s[i..j]
    decreases |s|
  {
    if s == "" {
      i, j := 0, 0;
    } else if IsSpace(s[0]) {
      var a, b := StripIsMiddle(s[1..]);
      BlankInFront(s, a, b);
      i, j := a + 1, b + 1;
    } else if IsSpace(s[|s| - 1]) {
      i, j := StripIsMiddle(s[..|s| - 1]);
      BlankBehind(s, i, j);
    } else {
      i, j := 0, |s|;
    }
  }

  /** The white space characters by number. */
  lemma SpacesSpelled(c: char)
    ensures IsSpace(c) <==> c as int in {
      0x09, 0x0A, 0x0B, 0x0C, 0x0D, 0x1C, 0x1D, 0x1E, 0x1F, 0x20, 0x85, 0xA0, 0x1680, 0x2000, 0x2001, 0x2002, 0x2003,
      0x2004, 0x2005, 0x2006, 0x2007, 0x2008, 0x2009, 0x200A, 0x2028, 0x2029, 0x202F, 0x205F, 0x3000}
  {
  }

  lemma {:induction false} StripIsIdempotent(s: string)
    ensures Strip(Strip(s)) == Strip(s)
    decreases |s|
  {
    if s != "" {
      if IsSpace(s[0]) {
        StripIsIdempotent(s[1..]);
      } else if IsSpace(s[|s| - 1]) {
        StripIsIdempotent(s[..|s| - 1]);
      }
    }
  }

  function UpperChar(c: char): char {
    if 'a' <= c <= 'z' then c - 'a' + 'A' else c
  }

  /** Small letters become the capitals at their place in the alphabet, and all other characters stay. */
  lemma UpperSpelled(i: nat)
    requires i < 26
    ensures UpperChar("abcdefghijklmnopqrstuvwxyz"[i]) == "ABCDEFGHIJKLMNOPQRSTUVWXYZ"[i]
  {
  }

  lemma OthersStay(c: char)
    ensures c in "abcdefghijklmnopqrstuvwxyz" || UpperChar(c) == c
  {
    if 'a' <= c <= 'z' {
      assert "abcdefghijklmnopqrstuvwxyz"[c as int - 'a' as int] == c;
    }
  }

  function Upper(s: string): (r: string)
    ensures |r| == |s| && forall i :: 0 <= i < |s| ==> r[i] == UpperChar(s[i])
  {
    seq(|s|, i requires 0 <= i < |s| => UpperChar(s[i]))
  }

  predicate IsDigit(c: char) {
    '0' <= c <= '9'
  }

  function DigitValue(c: char): (d: nat)
    requires IsDigit(c)
    ensures d < 10
  {
    c as nat - '0' as nat
  }
}
