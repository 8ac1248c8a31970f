/** The fluid listing: the library's comma-separated list of fluid names,
    split on commas, each piece stripped, blank pieces dropped, duplicates
    removed and the rest sorted. */
module Fluids {
  import opened Text

  /** Sorted with no repetitions, in the order of `Less`. */
  predicate StrictlyAscending(r: seq<string>) {
    forall i, j :: 0 <= i < j < |r| ==> Less(r[i], r[j])
  }

  /** A strictly ascending list repeats nothing. */
  lemma AscendingDistinct(r: seq<string>)
    requires StrictlyAscending(r)
    ensures forall i, j :: 0 <= i < |r| && 0 <= j < |r| && i != j ==> r[i] != r[j]
  {
    forall i, j | 0 <= i < |r| && 0 <= j < |r| && i != j ensures r[i] != r[j] {
      if i < j { LessIrreflexive(r[i]); } else { LessIrreflexive(r[j]); }
    }
  }

  /** Putting `x` in front keeps the list ascending when `x` is below its head. */
  lemma PrependAscending(x: string, r: seq<string>)
    requires StrictlyAscending(r) && (r == [] || Less(x, r[0]))
    ensures StrictlyAscending([x] + r)
  {
    var s := [x] + r;
    forall i, j | 0 <= i < j < |s| ensures Less(s[i], s[j]) {
      if i == 0 && j > 1 { LessTransitive(x, r[0], r[j - 1]); }
    }
  }

  /** The head of an ascending list is below everything else in it and below
      `x`, so it stays below whatever inserting `x` into the rest gives. */
  lemma HeadBelowRest(r: seq<string>, x: string, rest: seq<string>)
    requires StrictlyAscending(r) && r != [] && Less(r[0], x)
    requires forall y :: y in rest <==> y == x || y in r[1..]
    ensures forall k :: 0 <= k < |rest| ==> Less(r[0], rest[k])
  {
    forall k | 0 <= k < |rest| ensures Less(r[0], rest[k]) {
      if rest[k] != x {
        assert rest[k] in r[1..];
        var m :| 0 <= m < |r[1..]| && r[1..][m] == rest[k];
        assert r[m + 1] == rest[k];
      }
    }
  }

  /** Adds `x` to an ascending list unless it is already there. */
  function Insert(x: string, r: seq<string>): (r': seq<string>)
    requires StrictlyAscending(r)
    ensures StrictlyAscending(r')
    ensures forall y :: y in r' <==> y == x || y in r
  {
    if r == [] then [x]
    else if x == r[0] then r
    else if Less(x, r[0]) then
      PrependAscending(x, r);
      [x] + r
    else
      LessTotal(x, r[0]);
      var rest := Insert(x, r[1..]);
      assert r == [r[0]] + r[1..];
      HeadBelowRest(r, x, rest);
      PrependAscending(r[0], rest);
      [r[0]] + rest
  }

  /** `sorted(set(xs))`. */
  function SortedUnique(xs: seq<string>): (r: seq<string>)
    ensures StrictlyAscending(r)
    ensures forall y :: y in r <==> y in xs
  {
    if xs == [] then [] else Insert(xs[0], SortedUnique(xs[1..]))
  }

  /** The head of an ascending list is below every other element. */
  lemma HeadIsLeast(r: seq<string>)
    requires StrictlyAscending(r) && r != []
    ensures forall y :: y in r ==> y == r[0] || Less(r[0], y)
  {
  }

  /** Two ascending lists with the same elements are the same list, so
      `SortedUnique` is the one answer `sorted` can give. */
  lemma {:induction false} AscendingUnique(a: seq<string>, b: seq<string>)
    requires StrictlyAscending(a) && StrictlyAscending(b)
    requires forall y :: y in a <==> y in b
    ensures a == b
  {
    EmptyTogether(a, b);
    if a != [] {
      HeadIsLeast(a);
      HeadIsLeast(b);
      assert a[0] in b && b[0] in a;
      LessAsymmetric(a[0], b[0]);
      assert a[0] == b[0];
      LessIrreflexive(a[0]);
      forall y ensures y in a[1..] <==> y in b[1..] {
        if y in a[1..] {
          var k :| 0 <= k < |a[1..]| && a[1..][k] == y;
          assert Less(a[0], a[k + 1]);
          assert y in b && y != b[0];
          assert b == [b[0]] + b[1..];
        }
        if y in b[1..] {
          var k :| 0 <= k < |b[1..]| && b[1..][k] == y;
          assert Less(b[0], b[k + 1]);
          assert y in a && y != a[0];
          assert a == [a[0]] + a[1..];
        }
      }
      AscendingUnique(a[1..], b[1..]);
      assert a == [a[0]] + a[1..] && b == [b[0]] + b[1..];
    }
  }

  lemma EmptyTogether(a: seq<string>, b: seq<string>)
    requires forall y :: y in a <==> y in b
    ensures a == [] <==> b == []
  {
    if a != [] { assert a[0] in b; }
    if b != [] { assert b[0] in a; }
  }

  /** `y` is what some piece of the list becomes once stripped, and is not blank. */
  predicate Listed(pieces: seq<string>, y: string) {
    exists i :: 0 <= i < |pieces| && Strip(pieces[i]) != "" && Strip(pieces[i]) == y
  }

  /** `[f.strip() for f in pieces if f.strip()]`. */
  function Names(pieces: seq<string>): (r: seq<string>)
    ensures forall i :: 0 <= i < |r| ==> r[i] != "" && Strip(r[i]) == r[i]
    ensures forall y :: y in r <==> Listed(pieces, y)
  {
    if pieces == [] then []
    else
      var rest := Names(pieces[1..]);
      var name := Strip(pieces[0]);
      StripIdempotent(pieces[0]);
      assert forall i :: 0 < i < |pieces| ==> pieces[i] == pieces[1..][i - 1];
      if name != "" then [name] + rest else rest
  }

  /** The body of the fluid listing, for the library's list `catalog`: strictly
      ascending, each name non-blank and already stripped, and the names are
      exactly the non-blank stripped comma-separated pieces of `catalog`. */
  function FluidList(catalog: string): (r: seq<string>)
    ensures StrictlyAscending(r)
    ensures forall i :: 0 <= i < |r| ==> r[i] != "" && Strip(r[i]) == r[i]
    ensures forall y :: y in r <==> Listed(Split(catalog, ','), y)
  {
    var pieces := Split(catalog, ',');
    var names := Names(pieces);
    var r := SortedUnique(names);
    NamesCarryOver(names, r);
    assert forall y :: y in r <==> y in names;
    r
  }

  lemma NamesCarryOver(names: seq<string>, r: seq<string>)
    requires forall i :: 0 <= i < |names| ==> names[i] != "" && Strip(names[i]) == names[i]
    requires forall y :: y in r <==> y in names
    ensures forall i :: 0 <= i < |r| ==> r[i] != "" && Strip(r[i]) == r[i]
  {
    forall i | 0 <= i < |r| ensures r[i] != "" && Strip(r[i]) == r[i] {
      assert r[i] in names;
    }
  }

  /** `sorted` has one answer: any strictly ascending list of exactly the
      listed names is the fluid listing. */
  lemma FluidListUnique(catalog: string, r: seq<string>)
    requires StrictlyAscending(r)
    requires forall y :: y in r <==> Listed(Split(catalog, ','), y)
    ensures r == FluidList(catalog)
  {
    AscendingUnique(r, FluidList(catalog));
  }
}
