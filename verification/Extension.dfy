/** The extension stack: removed clauses with their witnesses, flattened into
    words with zero separators, and the backward pass that turns a model of what
    remains into a model of what was there before. */
module Extension {
  import opened Literals

  /** A removed clause with the literals that may be flipped to satisfy it. */
  datatype Entry = Entry(flips: seq<int>, high: int, low: int, clause: seq<int>)

  predicate NonZero(lits: seq<int>) { forall i :: 0 <= i < |lits| ==> lits[i] != 0 }

  function Words(e: Entry): seq<int> { [0] + e.flips + [0, e.high, e.low, 0] + e.clause }

  function Encode(entries: seq<Entry>): seq<int> {
    if entries == [] then [] else Encode(entries[..|entries| - 1]) + Words(entries[|entries| - 1])
  }

  ghost predicate Encodable(entries: seq<Entry>) {
    forall e :: 0 <= e < |entries| ==> NonZero(entries[e].flips) && NonZero(entries[e].clause)
  }

  // ------------------------------------------------------ what it means

  /** The assignment with one literal made true. */
  function Make(m: Model, lit: int): Model { if lit < 0 then m - {Abs(lit)} else m + {Abs(lit)} }

  /** The assignment with all literals made true, the first one last. */
  function MakeAll(m: Model, lits: seq<int>): Model
    decreases |lits|
  {
    if lits == [] then m else MakeAll(Make(m, lits[|lits| - 1]), lits[..|lits| - 1])
  }

  function Repair(e: Entry, m: Model): Model { if SatClause(m, e.clause) then m else MakeAll(m, e.flips) }

  /** The backward pass over the entries. */
  function Extended(entries: seq<Entry>, m: Model): Model {
    if entries == [] then m else Extended(entries[..|entries| - 1], Repair(entries[|entries| - 1], m))
  }

  /** Later entries are undone first. */
  lemma {:induction false} ExtendedConcat(a: seq<Entry>, b: seq<Entry>, m: Model)
    ensures Extended(a + b, m) == Extended(a, Extended(b, m))
  {
    if b == [] {
      assert a + b == a;
    } else {
      var n := |b| - 1;
      assert (a + b)[..|a + b| - 1] == a + b[..n];
      ExtendedConcat(a, b[..n], Repair(b[n], m));
    }
  }

  lemma MakeIsTrue(m: Model, lit: int, other: int)
    requires lit != 0 && other != 0
    ensures True(Make(m, lit), lit)
    ensures Abs(other) != Abs(lit) ==> (True(Make(m, lit), other) <==> True(m, other))
    ensures True(m, lit) ==> Make(m, lit) == m
  {
  }

  // ---------------------------------------------------------- the stack

  class ExtensionStack {
    var extension: seq<int>
    ghost var entries: seq<Entry>

    ghost predicate Valid()
      reads this
    {
      extension == Encode(entries) && Encodable(entries)
    }

    constructor ()
      ensures Valid() && entries == []
    {
      extension := [];
      entries := [];
    }

    method PushZero()
      modifies this`extension
      ensures extension == old(extension) + [0]
    {
      extension := extension + [0];
    }

    /** The identifier words are opaque here: the pass skips them. */
    method PushId(high: int, low: int)
      modifies this`extension
      ensures extension == old(extension) + [high, low]
    {
      extension := extension + [high];
      extension := extension + [low];
    }

    method PushLiterals(lits: seq<int>)
      modifies this`extension
      ensures extension == old(extension) + lits
    {
      for i := 0 to |lits|
        invariant extension == old(extension) + lits[..i]
      {
        extension := extension + [lits[i]];
        assert lits[..i + 1] == lits[..i] + [lits[i]];
      }
      assert lits[..|lits|] == lits;
    }

    /** Records a clause that is removed because of a pivot literal. */
    method PushClause(clause: seq<int>, pivot: int, high: int, low: int)
      requires Valid() && NonZero(clause) && pivot != 0
      modifies this
      ensures Valid() && entries == old(entries) + [Entry([pivot], high, low, clause)]
    {
      PushZero();
      extension := extension + [pivot];
      PushZero();
      PushId(high, low);
      PushZero();
      PushLiterals(clause);
      Grow(Entry([pivot], high, low, clause), old(extension));
    }

    method PushBinaryClause(pivot: int, other: int, high: int, low: int)
      requires Valid() && pivot != 0 && other != 0
      modifies this
      ensures Valid() && entries == old(entries) + [Entry([pivot], high, low, [pivot, other])]
    {
      PushZero();
      extension := extension + [pivot];
      PushZero();
      PushId(high, low);
      PushZero();
      extension := extension + [pivot];
      extension := extension + [other];
      Grow(Entry([pivot], high, low, [pivot, other]), old(extension));
    }

    method PushExternalClauseAndWitness(clause: seq<int>, flips: seq<int>, high: int, low: int)
      requires Valid() && NonZero(clause) && NonZero(flips)
      modifies this
      ensures Valid() && entries == old(entries) + [Entry(flips, high, low, clause)]
    {
      PushZero();
      PushLiterals(flips);
      PushZero();
      PushId(high, low);
      PushZero();
      PushLiterals(clause);
      Grow(Entry(flips, high, low, clause), old(extension));
    }

    ghost method Grow(e: Entry, before: seq<int>)
      requires before == Encode(entries) && Encodable(entries) && extension == before + Words(e)
      requires NonZero(e.flips) && NonZero(e.clause)
      modifies this`entries
      ensures Valid() && entries == old(entries) + [e]
    {
      assert (entries + [e])[..|entries|] == entries;
      entries := entries + [e];
    }

    /** The backward pass over the words. */
    method Extend(m: Model) returns (vals: Model)
      requires Valid()
      ensures vals == Extended(entries, m)
    {
      vals := m;
      var i: nat := |extension|;
      ghost var k: nat := |entries|;
      assert entries[..k] == entries && extension[..i] == extension;
      while i != 0
        invariant k <= |entries| && i <= |extension| && extension[..i] == Encode(entries[..k])
        invariant Extended(entries[..k], vals) == Extended(entries, m)
        decreases i
      {
        ghost var start := LastEntry(extension, i, entries, k);
        k := k - 1;
        ghost var e := entries[k];
        assert entries[..k + 1][..k] == entries[..k];
        var satisfied;
        satisfied, i := ReadClause(extension, i, vals, e, start);
        i := i - 3;
        if satisfied {
          i := SkipWitness(extension, i, e, start);
        } else {
          vals, i := FlipWitness(extension, i, vals, e, start);
        }
      }
      EmptyEncoding(entries[..k]);
    }
  }

  /** Where the parts of an entry lie. */
  ghost predicate LiesAt(extension: seq<int>, e: Entry, start: nat) {
    var z := start + 1 + |e.flips|;
    && NonZero(e.flips) && NonZero(e.clause) && z + 4 + |e.clause| <= |extension|
    && extension[start] == 0 && extension[z] == 0 && extension[z + 3] == 0
    && (forall j {:trigger e.flips[j]} :: 0 <= j < |e.flips| ==> extension[start + 1 + j] == e.flips[j])
    && (forall j {:trigger e.clause[j]} :: 0 <= j < |e.clause| ==> extension[z + 4 + j] == e.clause[j])
  }

  lemma WordsOf(e: Entry)
    ensures var w, z := Words(e), 1 + |e.flips|;
      && |w| == z + 4 + |e.clause| && w[0] == 0 && w[z] == 0 && w[z + 3] == 0
      && (forall j {:trigger e.flips[j]} :: 0 <= j < |e.flips| ==> w[1 + j] == e.flips[j])
      && (forall j {:trigger e.clause[j]} :: 0 <= j < |e.clause| ==> w[z + 4 + j] == e.clause[j])
  {
  }

  /** The words of the last entry of a prefix. */
  lemma LastEntry(extension: seq<int>, i: nat, entries: seq<Entry>, k: nat) returns (start: nat)
    requires 0 < i <= |extension| && k <= |entries| && extension[..i] == Encode(entries[..k]) && Encodable(entries)
    ensures k > 0 && start < i && extension[..start] == Encode(entries[..k - 1])
    ensures LiesAt(extension, entries[k - 1], start)
    ensures i == start + 5 + |entries[k - 1].flips| + |entries[k - 1].clause|
  {
    assert entries[..k][..k - 1] == entries[..k - 1];
    var e := entries[k - 1];
    start := |Encode(entries[..k - 1])|;
    WordsOf(e);
    SplitAt(extension, i, Encode(entries[..k - 1]), Words(e));
    forall j | 0 <= j < |e.flips| ensures extension[start + 1 + j] == e.flips[j] {
      assert extension[start + (1 + j)] == Words(e)[1 + j];
    }
    var z := 5 + |e.flips|;
    forall j | 0 <= j < |e.clause| ensures extension[start + z + j] == e.clause[j] {
      assert extension[start + (z + j)] == Words(e)[z + j];
    }
    assert extension[start + 0] == 0 && extension[start + (z - 4)] == 0 && extension[start + (z - 1)] == 0;
  }

  lemma SplitAt(extension: seq<int>, i: nat, before: seq<int>, words: seq<int>)
    requires i <= |extension| && extension[..i] == before + words
    ensures extension[..|before|] == before && i == |before| + |words|
    ensures forall j {:trigger words[j]} {:trigger extension[|before| + j]} :: 0 <= j < |words| ==> extension[|before| + j] == words[j]
  {
    assert extension[..|before|] == extension[..i][..|before|];
    forall j | 0 <= j < |words| ensures extension[|before| + j] == words[j] {
      assert extension[..i][|before| + j] == words[j];
    }
  }

  lemma EmptyEncoding(entries: seq<Entry>)
    ensures Encode(entries) == [] <==> entries == []
  {
  }

  /** Only the separators are zero. */
  lemma WordsAreNonZero(extension: seq<int>, e: Entry, start: nat, i: nat)
    requires LiesAt(extension, e, start) && i < |extension|
    ensures start < i <= start + |e.flips| ==> extension[i] != 0
    ensures start + 5 + |e.flips| <= i < start + 5 + |e.flips| + |e.clause| ==> extension[i] != 0
  {
    if start < i <= start + |e.flips| { assert extension[i] == e.flips[i - start - 1]; }
    var z := start + 5 + |e.flips|;
    if z <= i < z + |e.clause| { assert extension[i] == e.clause[i - z]; }
  }

  /** Reads the clause of an entry backward, down to the zero before it. */
  method ReadClause(extension: seq<int>, i0: nat, vals: Model, ghost e: Entry, ghost start: nat) returns (satisfied: bool, i: nat)
    requires LiesAt(extension, e, start) && i0 == start + 5 + |e.flips| + |e.clause|
    ensures i == start + 4 + |e.flips| && satisfied == SatClause(vals, e.clause)
  {
    i := i0 - 1;
    satisfied := false;
    ghost var z := start + 5 + |e.flips|;
    while extension[i] != 0
      invariant z - 1 <= i < i0
      invariant satisfied == exists j :: i - z < j < |e.clause| && True(vals, e.clause[j])
      decreases i
    {
      var lit := extension[i];
      assert lit == e.clause[i - z];
      if !satisfied && True(vals, lit) { satisfied := true; }
      i := i - 1;
    }
    WordsAreNonZero(extension, e, start, i);
  }

  /** Skips a witness that is not needed, down to the zero before it. */
  method SkipWitness(extension: seq<int>, i0: nat, ghost e: Entry, ghost start: nat) returns (i: nat)
    requires LiesAt(extension, e, start) && i0 == start + 1 + |e.flips|
    ensures i == start
  {
    i := i0 - 1;
    while extension[i] != 0
      invariant start <= i < i0
      decreases i
    {
      i := i - 1;
    }
    WordsAreNonZero(extension, e, start, i);
  }

  /** Flips the false literals of a witness, down to the zero before it. */
  method FlipWitness(extension: seq<int>, i0: nat, m: Model, ghost e: Entry, ghost start: nat) returns (vals: Model, i: nat)
    requires LiesAt(extension, e, start) && i0 == start + 1 + |e.flips|
    ensures i == start && vals == MakeAll(m, e.flips)
  {
    vals := m;
    i := i0 - 1;
    assert e.flips[..|e.flips|] == e.flips;
    while extension[i] != 0
      invariant start <= i < i0
      invariant MakeAll(vals, e.flips[..i - start]) == MakeAll(m, e.flips)
      decreases i
    {
      var lit := extension[i];
      ghost var j := i - start - 1;
      assert lit == e.flips[j];
      assert e.flips[..j + 1][..j] == e.flips[..j];
      ghost var made := Make(vals, lit);
      assert MakeAll(made, e.flips[..j]) == MakeAll(vals, e.flips[..j + 1]);
      if !True(vals, lit) {
        vals := if Abs(lit) in vals then vals - {Abs(lit)} else vals + {Abs(lit)};
      }
      assert vals == made;
      i := i - 1;
    }
    WordsAreNonZero(extension, e, start, i);
  }
}
