/** The three JavaScript string operations the catalog and the sign-up form rely on:
    `String.prototype.trim`, `toLowerCase` and `includes`. Strings are sequences of
    characters. */
module Text {

  /** The characters `trim` removes: ECMAScript's WhiteSpace (tab, vertical tab, form feed,
      space, no-break space, byte order mark and the other space separators of category
      Zs) and LineTerminator (line feed, carriage return, line and paragraph separators). */
  const JsSpaces: set<char> := {
    '\t', '\n', '\U{0B}', '\U{0C}', '\r', ' ', '\U{A0}', '\U{1680}',
    '\U{2000}', '\U{2001}', '\U{2002}', '\U{2003}', '\U{2004}', '\U{2005}',
    '\U{2006}', '\U{2007}', '\U{2008}', '\U{2009}', '\U{200A}',
    '\U{2028}', '\U{2029}', '\U{202F}', '\U{205F}', '\U{3000}', '\U{FEFF}'
  }

  predicate IsJsSpace(c: char)
  {
    c in JsSpaces
  }

  predicate IsBlank(s: string)
  {
    forall i :: 0 <= i < |s| ==> IsJsSpace(s[i])
  }

  /** `s` with its leading white space removed. */
  function TrimStart(s: string): string
    decreases |s|
  {
    if s == [] then []
    else if IsJsSpace(s[0]) then TrimStart(s[1..])
    else s
  }

  /** `TrimStart` removes a block of white space from the front, up to the first other
      character. */
  lemma {:induction false} TrimStartSpec(s: string)
    ensures |TrimStart(s)| <= |s| && TrimStart(s) == s[|s| - |TrimStart(s)|..]
    ensures forall i :: 0 <= i < |s| - |TrimStart(s)| ==> IsJsSpace(s[i])
    ensures TrimStart(s) == [] || !IsJsSpace(TrimStart(s)[0])
    decreases |s|
  {
    if s != [] && IsJsSpace(s[0]) {
      TrimStartSpec(s[1..]);
      assert s[1..][|s[1..]| - |TrimStart(s[1..])|..] == s[|s| - |TrimStart(s)|..];
    }
  }

  /** `s` with its trailing white space removed. */
  function TrimEnd(s: string): string
    decreases |s|
  {
    if s == [] then []
    else if IsJsSpace(s[|s| - 1]) then TrimEnd(s[..|s| - 1])
    else s
  }

  /** `TrimEnd` removes a block of white space from the back, down to the last other
      character. */
  lemma {:induction false} TrimEndSpec(s: string)
    ensures |TrimEnd(s)| <= |s| && TrimEnd(s) == s[..|TrimEnd(s)|]
    ensures forall i :: |TrimEnd(s)| <= i < |s| ==> IsJsSpace(s[i])
    ensures TrimEnd(s) == [] || !IsJsSpace(TrimEnd(s)[|TrimEnd(s)| - 1])
    decreases |s|
  {
    if s != [] && IsJsSpace(s[|s| - 1]) {
      var s' := s[..|s| - 1];
      TrimEndSpec(s');
      assert s'[..|TrimEnd(s')|] == s[..|TrimEnd(s)|];
    }
  }

  /** `r` is the block of `s` starting at `a`, and only white space lies around it. */
  ghost predicate IsTrimmedAt(s: string, r: string, a: int)
  {
    0 <= a <= |s| - |r| && r == s[a..a + |r|] &&
    (forall i :: 0 <= i < a ==> IsJsSpace(s[i])) &&
    (forall i :: a + |r| <= i < |s| ==> IsJsSpace(s[i]))
  }

  /** `String.prototype.trim`: `s` without its leading and trailing white space. */
  function Trim(s: string): string
  {
    TrimEnd(TrimStart(s))
  }

  /** The trimmed string is the block of the input between its leading and its trailing
      white space: every removed character is white space, and neither end of the result
      is. */
  lemma TrimSpec(s: string)
    ensures exists a :: IsTrimmedAt(s, Trim(s), a)
    ensures Trim(s) == [] || (!IsJsSpace(Trim(s)[0]) && !IsJsSpace(Trim(s)[|Trim(s)| - 1]))
  {
    var t := TrimStart(s);
    var r := TrimEnd(t);
    TrimStartSpec(s);
    TrimEndSpec(t);
    var a := |s| - |t|;
    assert r == s[a..a + |r|] by {
      assert s[a..][..|r|] == s[a..a + |r|];
    }
    forall i | a + |r| <= i < |s|
      ensures IsJsSpace(s[i])
    {
      assert s[i] == t[i - a];
    }
    assert Trim(s) == r;
    assert IsTrimmedAt(s, Trim(s), a);
    assert r != [] ==> r[0] == t[0];
  }

  /** The test `!s.trim()` in the source: trimming leaves nothing exactly when every
      character is white space. */
  lemma TrimEmptyIffBlank(s: string)
    ensures Trim(s) == [] <==> IsBlank(s)
  {
    TrimSpec(s);
    var r := Trim(s);
    var a :| IsTrimmedAt(s, r, a);
    if r != [] {
      assert !IsJsSpace(s[a]);
    }
  }

  /** Trimming twice trims nothing more. */
  lemma TrimIdempotent(s: string)
    ensures Trim(Trim(s)) == Trim(s)
  {
    var r := Trim(s);
    var rr := Trim(r);
    TrimSpec(s);
    TrimSpec(r);
    var a :| IsTrimmedAt(r, rr, a);
    if r != [] {
      assert a == 0;
      assert a + |rr| == |r|;
    }
  }

  /** The capitals this model lower-cases: Basic Latin `A`-`Z` and the Latin-1 capitals
      (U+00C0 to U+00DE without the multiplication sign U+00D7). */
  predicate IsCapital(c: char)
  {
    'A' <= c <= 'Z' || ('\U{C0}' <= c <= '\U{DE}' && c != '\U{D7}')
  }

  /** `toLowerCase` on one character: a capital becomes its small letter, 32 code points
      further on; every other character is kept. */
  function LowerChar(c: char): (r: char)
    ensures !IsCapital(r)
    ensures !IsCapital(c) ==> r == c
    ensures IsCapital(c) ==> r as int == c as int + 32
  {
    if IsCapital(c) then (c as int + 32) as char else c
  }

  /** `String.prototype.toLowerCase`: no capital is left, every other character stays where
      it was, and each capital is replaced by its small letter. */
  function Lower(s: string): (r: string)
    ensures |r| == |s|
    ensures forall i :: 0 <= i < |r| ==> !IsCapital(r[i])
    ensures forall i :: 0 <= i < |s| && !IsCapital(s[i]) ==> r[i] == s[i]
    ensures forall i :: 0 <= i < |s| && IsCapital(s[i]) ==> r[i] as int == s[i] as int + 32
  {
    seq(|s|, i requires 0 <= i < |s| => LowerChar(s[i]))
  }

  lemma LowerCharIdempotent(c: char)
    ensures LowerChar(LowerChar(c)) == LowerChar(c)
  {
  }

  /** Lower-casing an already lower-cased string changes nothing. */
  lemma LowerIdempotent(s: string)
    ensures Lower(Lower(s)) == Lower(s)
  {
    forall i | 0 <= i < |s|
      ensures Lower(Lower(s))[i] == Lower(s)[i]
    {
      LowerCharIdempotent(s[i]);
    }
  }

  /** `String.prototype.includes`: `q` occurs in `s` as a contiguous block. */
  function Contains(s: string, q: string): bool
    decreases |s|
  {
    q <= s || (s != [] && Contains(s[1..], q))
  }

  /** `q` occurs in `s` starting at position `i`. */
  ghost predicate OccursAt(s: string, q: string, i: int)
  {
    0 <= i <= |s| - |q| && s[i..i + |q|] == q
  }

  /** `Contains` holds exactly when `q` occurs at some position of `s`. */
  lemma {:induction false} ContainsIffOccurs(s: string, q: string)
    ensures Contains(s, q) <==> exists i :: OccursAt(s, q, i)
    decreases |s|
  {
    if q <= s {
      assert OccursAt(s, q, 0);
    } else if s != [] {
      forall i | OccursAt(s, q, i) && i != 0
        ensures OccursAt(s[1..], q, i - 1)
      {
        assert s[1..][i - 1..i - 1 + |q|] == s[i..i + |q|];
      }
      forall i | OccursAt(s[1..], q, i)
        ensures OccursAt(s, q, i + 1)
      {
        assert s[1..][i..i + |q|] == s[i + 1..i + 1 + |q|];
      }
      ContainsIffOccurs(s[1..], q);
    }
  }
}
