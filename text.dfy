/** String normalisation used by the record store: JavaScript's
    String.prototype.trim and String.prototype.toUpperCase, and their
    composition `s.trim().toUpperCase()`, which is how every stored city,
    trader and GST value is written. */
module Text {

  /** The code points `trim` removes: the ECMAScript WhiteSpace
      characters (tab, vertical tab, form feed, space, no-break space,
      byte order mark and the Unicode "Zs" separators) and the
      LineTerminator characters (line feed, carriage return, U+2028,
      U+2029). */
  predicate IsSpace(c: char)
    ensures IsSpace(c) ==> !('a' <= c <= 'z') && !('A' <= c <= 'Z')
  {
    var n := c as int;
    n == 0x09 || n == 0x0A || n == 0x0B || n == 0x0C || n == 0x0D || n == 0x20
    || n == 0xA0 || n == 0x1680 || (0x2000 <= n <= 0x200A)
    || n == 0x2028 || n == 0x2029 || n == 0x202F || n == 0x205F
    || n == 0x3000 || n == 0xFEFF
  }

  predicate AllSpace(s: string) {
    forall i :: 0 <= i < |s| ==> IsSpace(s[i])
  }

  /** `s` begins or ends with a character that `trim` would remove. */
  predicate Padded(s: string) {
    |s| > 0 && (IsSpace(s[0]) || IsSpace(s[|s| - 1]))
  }

  /** Drops the longest all-space prefix (see TrimStartShape). */
  function TrimStart(s: string): (r: string)
    ensures |r| <= |s|
    ensures r == [] || !IsSpace(r[0])
  {
    if |s| > 0 && IsSpace(s[0]) then TrimStart(s[1..]) else s
  }

  /** Drops the longest all-space suffix (see TrimEndShape). */
  function TrimEnd(s: string): (r: string)
    ensures |r| <= |s|
    ensures r == [] || !IsSpace(r[|r| - 1])
  {
    if |s| > 0 && IsSpace(s[|s| - 1]) then TrimEnd(s[..|s| - 1]) else s
  }

  /** What TrimStart removes is all space, and what it keeps is a suffix. */
  lemma {:induction false} TrimStartShape(s: string)
    ensures s[|s| - |TrimStart(s)|..] == TrimStart(s)
    ensures AllSpace(s[..|s| - |TrimStart(s)|])
  {
    if |s| > 0 && IsSpace(s[0]) {
      TrimStartShape(s[1..]);
      var k := |s| - |TrimStart(s)|;
      assert s[k..] == s[1..][k - 1..];
      assert forall i :: 1 <= i < k ==> s[i] == s[1..][i - 1];
    }
  }

  /** What TrimEnd removes is all space, and what it keeps is a prefix. */
  lemma {:induction false} TrimEndShape(s: string)
    ensures s[..|TrimEnd(s)|] == TrimEnd(s)
    ensures AllSpace(s[|TrimEnd(s)|..])
  {
    if |s| > 0 && IsSpace(s[|s| - 1]) {
      TrimEndShape(s[..|s| - 1]);
      var k := |TrimEnd(s)|;
      assert s[..k] == s[..|s| - 1][..k];
      assert forall i :: k <= i < |s| - 1 ==> s[i] == s[..|s| - 1][i];
    }
  }

  /** `s.trim()`: the result is never padded, and an unpadded string is
      its own trim. */
  function Trim(s: string): (r: string)
    ensures |r| <= |s|
    ensures !Padded(r)
    ensures !Padded(s) ==> r == s
  {
    TrimEndShape(TrimStart(s));
    var r := TrimEnd(TrimStart(s));
    assert r != [] ==> r[0] == TrimStart(s)[0];
    r
  }

  /** Upper-casing of one character; only the ASCII letters a-z change. */
  function UpperChar(c: char): (u: char)
    ensures !('a' <= u <= 'z')
    ensures IsSpace(u) == IsSpace(c)
    ensures 'a' <= c <= 'z' || u == c
    ensures 'a' <= c <= 'z' ==> 'A' <= u <= 'Z' && u as int - 'A' as int == c as int - 'a' as int
  {
    if 'a' <= c <= 'z' then (c as int - 32) as char else c
  }

  /** `s.toUpperCase()`, character by character. */
  function Upper(s: string): (r: string)
    ensures |r| == |s|
    ensures forall i :: 0 <= i < |s| ==> r[i] == UpperChar(s[i])
  {
    if s == [] then [] else [UpperChar(s[0])] + Upper(s[1..])
  }

  /** `s.trim().toUpperCase()`: the form in which the store writes a key. */
  function Normal(s: string): (r: string)
    ensures |r| <= |s|
    ensures !Padded(r)
  {
    UpperKeepsPadding(Trim(s));
    Upper(Trim(s))
  }

  /** A string the store would write unchanged. */
  predicate IsNormal(s: string) {
    Normal(s) == s
  }

  lemma UpperIdempotent(s: string)
    ensures Upper(Upper(s)) == Upper(s)
  {
  }

  lemma UpperKeepsPadding(s: string)
    ensures Padded(Upper(s)) == Padded(s)
  {
  }

  lemma {:induction false} TrimStartUpper(s: string)
    ensures TrimStart(Upper(s)) == Upper(TrimStart(s))
  {
    if |s| > 0 && IsSpace(s[0]) {
      assert Upper(s)[1..] == Upper(s[1..]);
      TrimStartUpper(s[1..]);
    }
  }

  lemma {:induction false} TrimEndUpper(s: string)
    ensures TrimEnd(Upper(s)) == Upper(TrimEnd(s))
  {
    if |s| > 0 && IsSpace(s[|s| - 1]) {
      assert Upper(s)[..|s| - 1] == Upper(s[..|s| - 1]);
      TrimEndUpper(s[..|s| - 1]);
    }
  }

  /** Trimming and upper-casing commute. */
  lemma TrimUpper(s: string)
    ensures Trim(Upper(s)) == Upper(Trim(s))
  {
    TrimStartUpper(s);
    TrimEndUpper(TrimStart(s));
  }

  /** A normal form contains no lower-case ASCII letter. */
  lemma NormalShape(s: string)
    ensures forall i :: 0 <= i < |Normal(s)| ==> !('a' <= Normal(s)[i] <= 'z')
  {
  }

  /** Normalising twice is normalising once. */
  lemma NormalIdempotent(s: string)
    ensures IsNormal(Normal(s))
  {
    NormalShape(s);
    UpperIdempotent(Trim(s));
  }

  /** The normal form does not depend on letter case. */
  lemma NormalIgnoresCase(s: string)
    ensures Normal(Upper(s)) == Normal(s)
  {
    TrimUpper(s);
    UpperIdempotent(Trim(s));
  }

  /** A string without lower-case ASCII letters is its own upper case. */
  lemma UpperFixesCapitals(s: string)
    requires forall i :: 0 <= i < |s| ==> !('a' <= s[i] <= 'z')
    ensures Upper(s) == s
  {
  }

  /** For an unpadded string, normalising is upper-casing alone. */
  lemma NormalOfUnpadded(s: string)
    requires !Padded(s)
    ensures Normal(s) == Upper(s)
  {
  }

  lemma {:induction false} TrimStartSkipsSpaces(p: string, s: string)
    requires AllSpace(p)
    ensures TrimStart(p + s) == TrimStart(s)
  {
    if p != [] {
      var ps := p + s;
      assert ps[0] == p[0] && IsSpace(ps[0]);
      assert TrimStart(ps) == TrimStart(ps[1..]);
      assert ps[1..] == p[1..] + s;
      TrimStartSkipsSpaces(p[1..], s);
    } else {
      assert p + s == s;
    }
  }

  lemma {:induction false} TrimEndSkipsSpaces(s: string, q: string)
    requires AllSpace(q)
    ensures TrimEnd(s + q) == TrimEnd(s)
  {
    if q != [] {
      var sq := s + q;
      assert sq[|sq| - 1] == q[|q| - 1] && IsSpace(sq[|sq| - 1]);
      assert TrimEnd(sq) == TrimEnd(sq[..|sq| - 1]);
      assert sq[..|sq| - 1] == s + q[..|q| - 1];
      TrimEndSkipsSpaces(s, q[..|q| - 1]);
    } else {
      assert s + q == s;
    }
  }

  /** When `s` holds a non-space character, trimming the front of `s + q`
      leaves `q` alone. */
  lemma {:induction false} TrimStartKeepsTail(s: string, q: string)
    requires !AllSpace(s)
    ensures TrimStart(s + q) == TrimStart(s) + q
  {
    if IsSpace(s[0]) {
      assert (s + q)[1..] == s[1..] + q;
      TrimStartKeepsTail(s[1..], q);
    }
  }

  lemma AllSpaceTrimsToEmpty(s: string)
    requires AllSpace(s)
    ensures TrimStart(s) == []
  {
    TrimStartSkipsSpaces(s, []);
    assert s + [] == s;
  }

  /** Leading and trailing whitespace does not change the trimmed string. */
  lemma TrimIgnoresPadding(p: string, s: string, q: string)
    requires AllSpace(p) && AllSpace(q)
    ensures Trim(p + s + q) == Trim(s)
  {
    assert p + s + q == p + (s + q);
    TrimStartSkipsSpaces(p, s + q);
    if AllSpace(s) {
      assert AllSpace(s + q);
      AllSpaceTrimsToEmpty(s + q);
      AllSpaceTrimsToEmpty(s);
    } else {
      TrimStartKeepsTail(s, q);
      TrimEndSkipsSpaces(TrimStart(s), q);
    }
  }

  /** Two inputs that differ only in surrounding whitespace and letter
      case (their upper cases agree) normalise to the same key. */
  lemma NormalIgnoresPaddingAndCase(p1: string, s1: string, q1: string,
                                    p2: string, s2: string, q2: string)
    requires AllSpace(p1) && AllSpace(q1) && AllSpace(p2) && AllSpace(q2)
    requires Upper(s1) == Upper(s2)
    ensures Normal(p1 + s1 + q1) == Normal(p2 + s2 + q2)
  {
    TrimIgnoresPadding(p1, s1, q1);
    TrimIgnoresPadding(p2, s2, q2);
    TrimUpper(s1);
    TrimUpper(s2);
  }

  /** `" pune "` is stored as `"PUNE"`. */
  lemma NormalExample()
    ensures Normal(" pune ") == "PUNE"
  {
    assert " pune "[1..] == "pune ";
    assert TrimStart(" pune ") == "pune ";
    assert "pune "[..4] == "pune";
    assert Trim(" pune ") == "pune";
    assert Upper("e") == "E";
    assert Upper("ne") == "N" + Upper("e");
    assert Upper("une") == "U" + Upper("ne");
    assert Upper("pune") == "P" + Upper("une");
  }
}
