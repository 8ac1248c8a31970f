/** The few string operations of Python the service relies on: `str.strip()`,
    `str.startswith`, `str.split(sep)`, `str.split(sep, 1)` and the ordering
    `sorted` uses on strings (code point by code point). */
module Text {
  import opened Wrappers

  /** Python's `str.isspace()` on one character: the ASCII controls TAB to CR,
      the separators 0x1C-0x1F, SPACE, NEL, NO-BREAK SPACE and the Unicode
      space separators and line/paragraph separators. */
  predicate IsSpace(c: char) {
    ('\U{9}' <= c <= '\U{D}') || ('\U{1C}' <= c <= '\U{20}')
    || c == '\U{85}' || c == '\U{A0}' || c == '\U{1680}'
    || ('\U{2000}' <= c <= '\U{200A}') || c == '\U{2028}' || c == '\U{2029}'
    || c == '\U{202F}' || c == '\U{205F}' || c == '\U{3000}'
  }

  predicate AllSpace(s: string) {
    forall k :: 0 <= k < |s| ==> IsSpace(s[k])
  }

  /** `s.strip()`: drops whitespace from the front, then from the back.
      Its properties are the lemmas below; they are kept out of the
      function's contract because every client that strips a string would
      otherwise pay for them. */
  function Strip(s: string): string
    decreases |s|
  {
    if |s| > 0 && IsSpace(s[0]) then Strip(s[1..])
    else if |s| > 0 && IsSpace(s[|s| - 1]) then Strip(s[..|s| - 1])
    else s
  }

  /** What `strip` removes is whitespace on either side of what it keeps. */
  lemma {:induction false} StripIsInfix(s: string) returns (i: nat)
    ensures i + |Strip(s)| <= |s| && Strip(s) == s[i..i + |Strip(s)|]
    ensures AllSpace(s[..i]) && AllSpace(s[i + |Strip(s)|..])
    decreases |s|, 1
  {
    if |s| > 0 && IsSpace(s[0]) {
      i := InfixFront(s);
    } else if |s| > 0 && IsSpace(s[|s| - 1]) {
      i := InfixBack(s);
    } else {
      i := 0;
      assert s[..0] == [] && s[|s|..] == [];
    }
  }

  lemma {:induction false} InfixFront(s: string) returns (i: nat)
    requires |s| > 0 && IsSpace(s[0])
    ensures i + |Strip(s)| <= |s| && Strip(s) == s[i..i + |Strip(s)|]
    ensures AllSpace(s[..i]) && AllSpace(s[i + |Strip(s)|..])
    decreases |s|, 0
  {
    var t := s[1..];
    var r := Strip(t);
    assert Strip(s) == r;
    var j := StripIsInfix(t);
    i := j + 1;
    var u, v := s[i..i + |r|], t[j..j + |r|];
    forall k | 0 <= k < |r| ensures u[k] == v[k] {
      assert s[i + k] == t[j + k];
    }
    assert u == v;
    assert s[..i] == [s[0]] + t[..j];
    assert s[i + |r|..] == t[j + |r|..];
  }

  lemma {:induction false} InfixBack(s: string) returns (i: nat)
    requires |s| > 0 && !IsSpace(s[0]) && IsSpace(s[|s| - 1])
    ensures i + |Strip(s)| <= |s| && Strip(s) == s[i..i + |Strip(s)|]
    ensures AllSpace(s[..i]) && AllSpace(s[i + |Strip(s)|..])
    decreases |s|, 0
  {
    var t := s[..|s| - 1];
    var r := Strip(t);
    assert Strip(s) == r;
    i := StripIsInfix(t);
    assert s[i..i + |r|] == t[i..i + |r|];
    assert s[..i] == t[..i];
    assert s[i + |r|..] == t[i + |r|..] + [s[|s| - 1]];
  }

  /** `strip` leaves no whitespace at either end, and gives the empty string
      exactly for an all-whitespace one. */
  lemma {:induction false} StripSpec(s: string)
    ensures |Strip(s)| <= |s|
    ensures Strip(s) == [] || (!IsSpace(Strip(s)[0]) && !IsSpace(Strip(s)[|Strip(s)| - 1]))
    ensures Strip(s) == [] <==> AllSpace(s)
    decreases |s|
  {
    if |s| > 0 && IsSpace(s[0]) {
      StripSpec(s[1..]);
      assert AllSpace(s) <==> AllSpace(s[1..]) by {
        assert forall k :: 0 < k < |s| ==> s[k] == s[1..][k - 1];
      }
    } else if |s| > 0 && IsSpace(s[|s| - 1]) {
      var t := s[..|s| - 1];
      StripSpec(t);
      assert AllSpace(s) <==> AllSpace(t) by {
        assert forall k :: 0 <= k < |t| ==> s[k] == t[k];
      }
    }
  }

  /** Stripping twice is stripping once. */
  lemma StripIdempotent(s: string)
    ensures Strip(Strip(s)) == Strip(s)
  {
    StripSpec(s);
  }

  /** Python's `s.startswith(p)`. */
  predicate StartsWith(s: string, p: string) {
    |p| <= |s| && s[..|p|] == p
  }

  /** The text after the first occurrence of `c`: element 1 of
      `s.split(c, 1)`, which exists exactly when `c` occurs in `s`. */
  function AfterFirst(s: string, c: char): (r: Option<string>)
    ensures r.Some? <==> c in s
    ensures r.Some? ==> |r.value| < |s|
                        && s == s[..|s| - |r.value| - 1] + [c] + r.value
                        && c !in s[..|s| - |r.value| - 1]
  {
    if |s| == 0 then None
    else if s[0] == c then Some(s[1..])
    else
      var r := AfterFirst(s[1..], c);
      assert s == [s[0]] + s[1..];
      if r.Some? then
        assert s[..|s| - |r.value| - 1] == [s[0]] + s[1..][..|s[1..]| - |r.value| - 1];
        r
      else r
  }

  /** Splitting just after the first `c` gives back what follows it. */
  lemma {:induction false} AfterFirstOfPrefix(p: string, c: char, rest: string)
    requires c !in p
    ensures AfterFirst(p + [c] + rest, c) == Some(rest)
  {
    if p != [] {
      assert (p + [c] + rest)[1..] == p[1..] + [c] + rest;
      AfterFirstOfPrefix(p[1..], c, rest);
    }
  }

  /** The pieces that `s.split(sep)` returns, in order. */
  function Split(s: string, sep: char): (r: seq<string>)
    ensures |r| >= 1
    ensures forall i :: 0 <= i < |r| ==> sep !in r[i]
  {
    if |s| == 0 then [""]
    else if s[0] == sep then [""] + Split(s[1..], sep)
    else
      var rest := Split(s[1..], sep);
      [[s[0]] + rest[0]] + rest[1..]
  }

  /** `sep.join(pieces)`, the inverse of `Split`. */
  function Join(pieces: seq<string>, sep: char): string
    requires |pieces| >= 1
  {
    if |pieces| == 1 then pieces[0] else pieces[0] + [sep] + Join(pieces[1..], sep)
  }

  /** Joining the pieces of a split gives back the string. */
  lemma {:induction false} JoinSplit(s: string, sep: char)
    ensures Join(Split(s, sep), sep) == s
  {
    if |s| > 0 {
      JoinSplit(s[1..], sep);
      var rest := Split(s[1..], sep);
      if s[0] != sep && |rest| > 1 {
        assert Split(s, sep)[1..] == rest[1..];
      }
    }
  }

  /** Splitting a join of separator-free pieces gives back the pieces. */
  lemma {:induction false} SplitJoin(pieces: seq<string>, sep: char)
    requires |pieces| >= 1
    requires forall i :: 0 <= i < |pieces| ==> sep !in pieces[i]
    ensures Split(Join(pieces, sep), sep) == pieces
  {
    if |pieces| == 1 {
      SplitPiece(pieces[0], sep, []);
      assert pieces[0] + [] == pieces[0];
    } else {
      SplitJoin(pieces[1..], sep);
      SplitPiece(pieces[0], sep, [sep] + Join(pieces[1..], sep));
      assert pieces[0] + [sep] + Join(pieces[1..], sep) == pieces[0] + ([sep] + Join(pieces[1..], sep));
      assert ([sep] + Join(pieces[1..], sep))[1..] == Join(pieces[1..], sep);
      assert pieces == [pieces[0]] + pieces[1..];
    }
  }

  /** A separator-free prefix ends up glued to the front of the first piece. */
  lemma {:induction false} SplitPiece(p: string, sep: char, tail: string)
    requires sep !in p
    requires tail == [] || tail[0] == sep
    ensures Split(p + tail, sep)
         == (if tail == [] then [p] else [p] + Split(tail[1..], sep))
  {
    if p == [] {
      assert p + tail == tail;
    } else {
      assert (p + tail)[1..] == p[1..] + tail;
      assert p[0] != sep && (p + tail)[0] == p[0];
      assert p == [p[0]] + p[1..];
      SplitPiece(p[1..], sep, tail);
    }
  }

  /** The order Python's `sorted` uses on strings: lexicographic on code
      points, with a proper prefix before the longer string. */
  predicate Less(a: string, b: string) {
    if |a| == 0 then |b| > 0
    else |b| > 0 && (a[0] < b[0] || (a[0] == b[0] && Less(a[1..], b[1..])))
  }

  lemma {:induction false} LessIrreflexive(a: string)
    ensures !Less(a, a)
  {
    if |a| > 0 { LessIrreflexive(a[1..]); }
  }

  lemma {:induction false} LessTransitive(a: string, b: string, c: string)
    requires Less(a, b) && Less(b, c)
    ensures Less(a, c)
  {
    if |a| > 0 && a[0] == b[0] && b[0] == c[0] {
      LessTransitive(a[1..], b[1..], c[1..]);
    }
  }

  lemma {:induction false} LessAsymmetric(a: string, b: string)
    ensures !(Less(a, b) && Less(b, a))
  {
    if |a| > 0 && |b| > 0 && a[0] == b[0] {
      LessAsymmetric(a[1..], b[1..]);
    }
  }

  lemma {:induction false} LessTotal(a: string, b: string)
    requires a != b
    ensures Less(a, b) || Less(b, a)
  {
    if |a| > 0 && |b| > 0 && a[0] == b[0] {
      assert a == [a[0]] + a[1..] && b == [b[0]] + b[1..];
      LessTotal(a[1..], b[1..]);
    }
  }
}
