/** The `flags!` macro of the util crate: a bit-set type whose flags each have
    a serialized name. A declaration is the sequence of those names in
    declaration order; a value is the set of indices of the flags it holds. */
module FlagSet {

  /** Every name is declared once (each `flags!` use declares distinct names). */
  predicate Distinct(decl: seq<string>)
  {
    forall i, j :: 0 <= i < j < |decl| ==> decl[i] != decl[j]
  }

  /** A value holds only declared flags. */
  predicate Valid(decl: seq<string>, f: set<nat>)
  {
    forall i :: i in f ==> i < |decl|
  }

  /** The indices below `n` held by `f`, in increasing order. */
  function Indices(f: set<nat>, n: nat): (r: seq<nat>)
    ensures forall i :: i in r <==> i in f && i < n
    ensures forall k :: 0 <= k < |r| ==> r[k] < n
    ensures forall p, q :: 0 <= p < q < |r| ==> r[p] < r[q]
  {
    if n == 0 then [] else Indices(f, n - 1) + (if n - 1 in f then [n - 1] else [])
  }

  /** `names()`: walk every declared flag in order and yield the name of each
      one that is set. */
  function NamesBelow(decl: seq<string>, f: set<nat>, n: nat): seq<string>
    requires n <= |decl|
  {
    if n == 0 then [] else NamesBelow(decl, f, n - 1) + (if n - 1 in f then [decl[n - 1]] else [])
  }

  function Names(decl: seq<string>, f: set<nat>): seq<string>
  {
    NamesBelow(decl, f, |decl|)
  }

  /** The names are exactly those of the set flags, taken in increasing
      declaration order (each at most once). */
  lemma {:induction false} NamesBelowOrder(decl: seq<string>, f: set<nat>, n: nat)
    requires n <= |decl|
    ensures |NamesBelow(decl, f, n)| == |Indices(f, n)|
    ensures forall k :: 0 <= k < |Indices(f, n)| ==> NamesBelow(decl, f, n)[k] == decl[Indices(f, n)[k]]
  {
    if n > 0 {
      NamesBelowOrder(decl, f, n - 1);
    }
  }

  lemma NamesOrder(decl: seq<string>, f: set<nat>)
    ensures |Names(decl, f)| == |Indices(f, |decl|)|
    ensures forall k :: 0 <= k < |Names(decl, f)| ==> Names(decl, f)[k] == decl[Indices(f, |decl|)[k]]
  {
    NamesBelowOrder(decl, f, |decl|);
  }

  /** A declared name is listed exactly when its flag is set. */
  lemma NamesMembership(decl: seq<string>, f: set<nat>, i: nat)
    requires Distinct(decl) && i < |decl|
    ensures decl[i] in Names(decl, f) <==> i in f
  {
    NamesOrder(decl, f);
    var idx := Indices(f, |decl|);
    if decl[i] in Names(decl, f) {
      var k :| 0 <= k < |Names(decl, f)| && Names(decl, f)[k] == decl[i];
      assert decl[idx[k]] == decl[i];
      assert idx[k] in idx;
    }
    if i in f {
      assert i in idx;
      var k :| 0 <= k < |idx| && idx[k] == i;
      assert Names(decl, f)[k] == decl[i];
    }
  }

  /** Only declared names are listed. */
  lemma NamesDeclared(decl: seq<string>, f: set<nat>, x: string)
    requires x in Names(decl, f)
    ensures x in decl
  {
    NamesOrder(decl, f);
    var k :| 0 <= k < |Names(decl, f)| && Names(decl, f)[k] == x;
    assert Indices(f, |decl|)[k] in Indices(f, |decl|);
  }

  /** The flags whose name is `name`; matching is exact (case-sensitive). */
  function Lookup(decl: seq<string>, name: string): set<nat>
  {
    set i: nat | i < |decl| && decl[i] == name
  }

  /** With distinct names, a declared name looks up its own flag only. */
  lemma LookupDeclared(decl: seq<string>, i: nat)
    requires Distinct(decl) && i < |decl|
    ensures Lookup(decl, decl[i]) == {i}
  {
    forall j: nat | j in Lookup(decl, decl[i])
      ensures j == i
    {
      assert decl[j] == decl[i];
    }
  }

  /** `from_names` / `FromIterator`: the union of the flags named, folded left
      to right; unknown names contribute nothing. */
  function FromNames(decl: seq<string>, ns: seq<string>): (r: set<nat>)
    ensures forall i: nat :: i in r <==> i < |decl| && decl[i] in ns
  {
    if ns == [] then {}
    else
      var r := FromNames(decl, ns[..|ns| - 1]) + Lookup(decl, ns[|ns| - 1]);
      assert forall x :: x in ns <==> x in ns[..|ns| - 1] || x == ns[|ns| - 1] by {
        assert ns == ns[..|ns| - 1] + [ns[|ns| - 1]];
      }
      r
  }

  /** Parsing the names a value prints gives back the value. */
  lemma FromNamesNames(decl: seq<string>, f: set<nat>)
    requires Distinct(decl) && Valid(decl, f)
    ensures FromNames(decl, Names(decl, f)) == f
  {
    forall i: nat | i < |decl|
      ensures i in FromNames(decl, Names(decl, f)) <==> i in f
    {
      NamesMembership(decl, f, i);
    }
  }

  /** Order and repetition of the names do not matter. */
  lemma FromNamesSameNames(decl: seq<string>, ns: seq<string>, ms: seq<string>)
    requires forall x :: x in ns <==> x in ms
    ensures FromNames(decl, ns) == FromNames(decl, ms)
  {
  }

  /** Printing the value parsed from some names lists each declared name among
      them once, in declaration order. */
  lemma NamesFromNames(decl: seq<string>, ns: seq<string>, x: string)
    requires Distinct(decl)
    ensures x in Names(decl, FromNames(decl, ns)) <==> x in decl && x in ns
  {
    if x in Names(decl, FromNames(decl, ns)) {
      NamesDeclared(decl, FromNames(decl, ns), x);
    }
    if x in decl {
      var i :| 0 <= i < |decl| && decl[i] == x;
      NamesMembership(decl, FromNames(decl, ns), i);
    }
  }
}
