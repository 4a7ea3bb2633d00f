/** The binary implication graph that the watch lists of a clause set describe,
    and reachability in it. */
module ImplicationGraph {
  import opened Literals

  /** One watch of a literal: 'binary' watches carry the other literal of a
      two-literal clause as their blocking literal. */
  datatype Watch = Watch(blit: int, binary: bool)

  const INT_MAX: nat := 0x7fff_ffff

  datatype Formula = Formula(
    maxVar: nat,
    watches: map<int, seq<Watch>>,
    active: set<nat>,
    frozen: set<nat>)
  {
    predicate Lit(l: int) { IsLit(maxVar, l) }
    predicate Active(l: int) { Abs(l) in active }
    predicate Frozen(l: int) { Abs(l) in frozen }

    /** Watch lists exist for every literal, and the two literals of a binary
        clause watch each other. */
    ghost predicate Valid() {
      && maxVar <= INT_MAX
      && (forall v :: v in active ==> 1 <= v <= maxVar)
      && (forall l :: Lit(l) ==> l in watches)
      && (forall l, i :: Lit(l) && 0 <= i < |watches[l]| ==> Lit(watches[l][i].blit))
      && (forall a, b :: HasBinary(a, b) ==> HasBinary(b, a))
    }

    /** The clause a \/ b is among the binary clauses. */
    ghost predicate HasBinary(a: int, b: int) {
      Lit(a) && a in watches && Watch(b, true) in watches[a]
    }

    /** p implies c through one binary clause over active variables. */
    ghost predicate Edge(p: int, c: int) {
      Active(p) && Active(c) && HasBinary(-p, c)
    }

    /** A set of literals that no implication leaves. */
    ghost predicate Closed(lits: set<int>) {
      forall x, y :: x in lits && Edge(x, y) ==> y in lits
    }

    /** b is reached from a: it lies in every closed set around a. */
    ghost predicate Reach(a: int, b: int) {
      forall lits {:trigger Closed(lits)} :: Closed(lits) && a in lits ==> b in lits
    }

    /** Two literals lie in one strongly connected component. */
    ghost predicate Mutual(a: int, b: int) { Reach(a, b) && Reach(b, a) }

    ghost predicate IsPath(p: seq<int>) {
      p != [] && forall i :: 0 <= i < |p| - 1 ==> Edge(p[i], p[i + 1])
    }

    ghost predicate PathTo(a: int, b: int) {
      exists p :: IsPath(p) && p[0] == a && p[|p| - 1] == b
    }

    lemma EdgesMirror(p: int, c: int)
      requires Valid() && Edge(p, c)
      ensures Edge(-c, -p) && Lit(p) && Lit(c)
    {
      assert HasBinary(c, -p);
    }

    lemma ReachEdge(a: int, b: int)
      requires Edge(a, b)
      ensures Reach(a, b)
    {
    }

    lemma ReachTrans(a: int, b: int, c: int)
      requires Reach(a, b) && Reach(b, c)
      ensures Reach(a, c)
    {
    }

    /** Contraposition: the negations of what a closed set leaves out form a closed set. */
    lemma ReachMirror(a: int, b: int)
      requires Valid() && Reach(a, b)
      ensures Reach(-b, -a)
    {
      forall lits | Closed(lits) && -b in lits ensures -a in lits {
        var outside := (set x | x in AllLits(maxVar) && -x !in lits);
        if -a !in lits && Lit(a) {
          forall x, y | x in outside && Edge(x, y) ensures y in outside { EdgesMirror(x, y); }
          assert Closed(outside) && a in outside;
        } else if !Lit(a) {
          assert Closed({a}) by {
            forall y | Edge(a, y) ensures false { EdgesMirror(a, y); }
          }
          assert a in {a};
        }
      }
    }

    /** Reachability is the existence of a path. */
    lemma ReachIsPath(a: int, b: int)
      requires Valid() && Lit(a)
      ensures Reach(a, b) <==> PathTo(a, b)
    {
      if PathTo(a, b) {
        var p :| IsPath(p) && p[0] == a && p[|p| - 1] == b;
        forall lits | Closed(lits) && a in lits ensures b in lits {
          for i := 0 to |p| - 1
            invariant p[i] in lits
          {
            assert Edge(p[i], p[i + 1]);
          }
        }
      }
      var found := set x | x in AllLits(maxVar) && PathTo(a, x);
      forall x, y | x in found && Edge(x, y) ensures y in found {
        EdgesMirror(x, y);
        var p :| IsPath(p) && p[0] == a && p[|p| - 1] == x;
        assert IsPath(p + [y]) && (p + [y])[0] == a;
      }
      assert IsPath([a]);
      assert Closed(found) && a in found;
    }
  }
}
