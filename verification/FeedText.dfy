/** The text half of the feed: sorted lines, each ended by a newline. */
module FeedText {

  /** The order of `Vec<String>::sort`: lexicographic by character. */
  predicate Le(a: string, b: string) {
    a == "" || (b != "" && (a[0] < b[0] || (a[0] == b[0] && Le(a[1..], b[1..]))))
  }

  /** The texts agree up to place `k`, where the first has the smaller character. */
  ghost predicate SmallerAt(a: string, b: string, k: nat) { k < |a| && k < |b| && a[..k] == b[..k] && a[k] < b[k] }

  /** Dictionary order: a text comes before another that it begins, and otherwise the first place where they
      differ decides. */
  lemma {:induction false} LeIsDictionary(a: string, b: string)
    ensures Le(a, b) <==> a <= b || exists k: nat :: SmallerAt(a, b, k)
  {
    if a != "" && b != "" {
      if a[0] == b[0] {
        var c, d := a[1..], b[1..];
        LeIsDictionary(c, d);
        assert a == [a[0]] + c && b == [b[0]] + d;
        if k: nat :| SmallerAt(c, d, k) { assert a[..k + 1] == [a[0]] + c[..k] && SmallerAt(a, b, k + 1); }
        if k: nat :| SmallerAt(a, b, k) && k > 0 { assert c[..k - 1] == a[1..k] == b[1..k] == d[..k - 1] && SmallerAt(c, d, k - 1); }
      } else if a[0] < b[0] {
        assert SmallerAt(a, b, 0);
      }
    }
  }

  lemma {:induction false} LeTotal(a: string, b: string)
    ensures Le(a, b) || Le(b, a)
  {
    if a != "" && b != "" && a[0] == b[0] { LeTotal(a[1..], b[1..]); }
  }

  lemma {:induction false} LeTransitive(a: string, b: string, c: string)
    requires Le(a, b) && Le(b, c)
    ensures Le(a, c)
  {
    if a != "" && a[0] == b[0] && b[0] == c[0] { LeTransitive(a[1..], b[1..], c[1..]); }
  }

  lemma {:induction false} LeAntisymmetric(a: string, b: string)
    requires Le(a, b) && Le(b, a)
    ensures a == b
  {
    if a != "" {
      LeAntisymmetric(a[1..], b[1..]);
      assert a == [a[0]] + a[1..] && b == [b[0]] + b[1..];
    }
  }

  predicate Sorted(ls: seq<string>) { forall i, j :: 0 <= i < j < |ls| ==> Le(ls[i], ls[j]) }

  function Insert(x: string, ls: seq<string>): (r: seq<string>)
    ensures multiset(r) == multiset([x]) + multiset(ls)
  {
    if ls == [] || Le(x, ls[0]) then
      [x] + ls
    else
      assert ls == [ls[0]] + ls[1..];
      [ls[0]] + Insert(x, ls[1..])
  }

  function Sort(ls: seq<string>): (r: seq<string>)
    ensures multiset(r) == multiset(ls)
  {
    if ls == [] then [] else
      assert ls == [ls[0]] + ls[1..];
      Insert(ls[0], Sort(ls[1..]))
  }

  lemma {:induction false} InsertSorted(x: string, ls: seq<string>)
    requires Sorted(ls)
    ensures Sorted(Insert(x, ls))
  {
    if ls == [] {
    } else if Le(x, ls[0]) {
      forall i | 0 <= i < |ls| ensures Le(x, ls[i]) {
        if i > 0 { LeTransitive(x, ls[0], ls[i]); }
      }
    } else {
      LeTotal(x, ls[0]);
      InsertSorted(x, ls[1..]);
      var r := Insert(x, ls[1..]);
      forall i | 0 <= i < |r| ensures Le(ls[0], r[i]) {
        assert r[i] in multiset(r);
        if r[i] != x {
          assert r[i] in ls[1..];
        }
      }
    }
  }

  lemma {:induction false} SortSorted(ls: seq<string>)
    ensures Sorted(Sort(ls))
  {
    if ls != [] {
      SortSorted(ls[1..]);
      InsertSorted(ls[0], Sort(ls[1..]));
    }
  }

  lemma {:induction false} HeadIsLeast(a: seq<string>, x: string)
    requires Sorted(a) && x in a
    ensures Le(a[0], x)
  {
    var i :| 0 <= i < |a| && a[i] == x;
    LeReflexive(x);
  }

  lemma SortedTail(a: seq<string>)
    requires Sorted(a) && a != []
    ensures Sorted(a[1..])
  {
  }

  lemma TailMultiset(a: seq<string>)
    requires a != []
    ensures multiset(a[1..]) == multiset(a) - multiset{a[0]}
  {
    assert a == [a[0]] + a[1..];
  }

  /** A sorted list is determined by its multiset of lines. */
  lemma {:induction false} SortedUnique(a: seq<string>, b: seq<string>)
    requires Sorted(a) && Sorted(b) && multiset(a) == multiset(b)
    ensures a == b
  {
    assert |a| == |multiset(a)| == |multiset(b)| == |b|;
    if a != [] {
      assert a[0] in multiset(b) && b[0] in multiset(a);
      SortedTail(a);
      SortedTail(b);
      hide *;
      HeadIsLeast(a, b[0]);
      HeadIsLeast(b, a[0]);
      LeAntisymmetric(a[0], b[0]);
      TailMultiset(a);
      TailMultiset(b);
      SortedUnique(a[1..], b[1..]);
      assert a == [a[0]] + a[1..] && b == [b[0]] + b[1..];
    }
  }

  lemma {:induction false} LeReflexive(a: string)
    ensures Le(a, a)
  {
    if a != "" { LeReflexive(a[1..]); }
  }

  /** Neither the order the lines come in nor anything else but their multiset matters to `Sort`. */
  lemma {:induction false} SortDetermined(a: seq<string>, b: seq<string>)
    ensures Sort(a) == Sort(b) <==> multiset(a) == multiset(b)
  {
    SortSorted(a);
    SortSorted(b);
    if multiset(a) == multiset(b) { SortedUnique(Sort(a), Sort(b)); }
  }

  // ---------------------------------------------------------------- the body

  /** `lines.join("\n")`. */
  function Join(ls: seq<string>): string {
    if ls == [] then "" else if |ls| == 1 then ls[0] else ls[0] + "\n" + Join(ls[1..])
  }

  function Body(ls: seq<string>): string { if ls == [] then "" else Join(ls) + "\n" }

  predicate OneLine(l: string) { '\n' !in l }

  lemma BodyStep(ls: seq<string>)
    requires ls != []
    ensures Body(ls) == ls[0] + ("\n" + Body(ls[1..]))
  {
    if |ls| == 1 {
      assert ls[1..] == [];
      assert ls[0] + "\n" == ls[0] + ("\n" + "");
    } else {
      assert (ls[0] + "\n" + Join(ls[1..])) + "\n" == ls[0] + ("\n" + (Join(ls[1..]) + "\n"));
    }
  }

  lemma FirstNewline(a: string, s: string, b: string, t: string)
    requires OneLine(a) && OneLine(b)
    requires a + ("\n" + s) == b + ("\n" + t)
    ensures a == b && s == t
  {
    var x := a + ("\n" + s);
    assert x[|a|] == '\n' && x[|b|] == '\n';
    assert a == x[..|a|] && b == x[..|b|];
    assert "\n" + s == x[|a|..] && "\n" + t == x[|b|..];
    assert s == ("\n" + s)[1..] && t == ("\n" + t)[1..];
  }

  /** A body spells its lines: different line lists give different bodies. */
  lemma {:induction false} BodyInjective(a: seq<string>, b: seq<string>)
    requires forall l :: l in a ==> OneLine(l)
    requires forall l :: l in b ==> OneLine(l)
    requires Body(a) == Body(b)
    ensures a == b
  {
    if a != [] { BodyStep(a); }
    if b != [] { BodyStep(b); }
    hide Body, OneLine;
    if a != [] && b != [] {
      FirstNewline(a[0], Body(a[1..]), b[0], Body(b[1..]));
      BodyInjective(a[1..], b[1..]);
      assert a == [a[0]] + a[1..] && b == [b[0]] + b[1..];
    }
  }
}
