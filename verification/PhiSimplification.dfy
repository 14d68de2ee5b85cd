/** Simplification of trivial phis: TypeLowering::finishPhis in compilerutils/lib/TypeLowering.cpp.

A value is executed whenever control passes through the block that defines it.  Two values are the same at a
point of a run if the same execution of the same definition supplied them.
*/
module PhiSimplification {
  type Block = nat
  type Value = nat

  // ----- control flow -----

  datatype Cfg = Cfg(entry: Block, edges: set<(Block, Block)>)

  /** A run through the blocks of the function, from its entry. */
  predicate IsPath(g: Cfg, path: seq<Block>)
  {
    path != [] && path[0] == g.entry && forall i :: 0 < i < |path| ==> (path[i - 1], path[i]) in g.edges
  }

  function Last(path: seq<Block>): Block
    requires path != []
  {
    path[|path| - 1]
  }

  ghost predicate Dominates(g: Cfg, a: Block, b: Block)
  {
    forall path :: IsPath(g, path) && Last(path) == b ==> a in path
  }

  ghost predicate Reachable(g: Cfg, b: Block)
  {
    exists path :: IsPath(g, path) && Last(path) == b
  }

  /** The run up to the first visit of `b`. */
  function Until(path: seq<Block>, b: Block): (r: seq<Block>)
    requires b in path
    ensures r != [] && Last(r) == b && b !in r[..|r| - 1]
    ensures |r| <= |path| && r == path[..|r|]
  {
    if b in path[..|path| - 1] then Until(path[..|path| - 1], b) else path
  }

  lemma DominanceIsTransitive(g: Cfg, a: Block, b: Block, c: Block)
    requires Dominates(g, a, b) && Dominates(g, b, c)
    ensures Dominates(g, a, c)
  {
    forall path | IsPath(g, path) && Last(path) == c
      ensures a in path
    {
      var prefix := Until(path, b);
      assert a in prefix;
    }
  }

  /** A dominator of another block dominates the predecessors of that block as well. */
  lemma DominatesPredecessor(g: Cfg, a: Block, path: seq<Block>)
    requires IsPath(g, path) && 1 < |path| && Dominates(g, a, Last(path)) && a != Last(path)
    ensures Dominates(g, a, Last(path[..|path| - 1]))
  {
    var last := Last(path);
    var before := Last(path[..|path| - 1]);
    assert (before, last) in g.edges;
    forall other | IsPath(g, other) && Last(other) == before
      ensures a in other
    {
      var longer := other + [last];
      assert IsPath(g, longer) && Last(longer) == last;
      assert a in longer;
    }
  }

  // ----- what a phi holds during a run -----

  /** The number of blocks up to the last execution of what `b` defines; 0 if it has not been executed. */
  function LastVisit(path: seq<Block>, b: Block): nat
  {
    if path == [] then 0
    else if Last(path) == b then |path|
    else LastVisit(path[..|path| - 1], b)
  }

  /** Where a value defined in block `b` may be used, block `b` has been passed since the last visit of each block that dominates it.
      So a use never sees a value from before that visit. */
  lemma {:induction false} DominatedIsCurrent(g: Cfg, a: Block, b: Block, path: seq<Block>)
    requires a != b && Dominates(g, a, b) && IsPath(g, path) && Dominates(g, b, Last(path))
    ensures LastVisit(path, a) < LastVisit(path, b)
    decreases |path|
  {
    LastVisitBounds(path, a);
    LastVisitBounds(path[..|path| - 1], a);
    if Last(path) != b {
      assert b in path;
      if Last(path) == a {
        NotBothDominate(g, a, b, path);
      } else {
        DominatesPredecessor(g, b, path);
        DominatedIsCurrent(g, a, b, path[..|path| - 1]);
      }
    }
  }

  lemma {:induction false} LastVisitBounds(path: seq<Block>, b: Block)
    ensures LastVisit(path, b) <= |path|
    decreases |path|
  {
    if path != [] { LastVisitBounds(path[..|path| - 1], b); }
  }

  lemma NotBothDominate(g: Cfg, a: Block, b: Block, path: seq<Block>)
    requires a != b && IsPath(g, path) && a in path
    ensures !(Dominates(g, a, b) && Dominates(g, b, a))
  {
    if Dominates(g, b, a) {
      var first := Until(path, a);
      var earlier := Until(first, b);
      assert earlier == first[..|earlier|] && |earlier| < |first|;
      assert IsPath(g, earlier) && a !in earlier;
    }
  }

  /** The execution that supplied the phi of block `b` after a run: it keeps its value when control comes from one of
      the predecessors in `self`, and otherwise takes the value defined in block `d`. */
  function Held(path: seq<Block>, b: Block, self: set<Block>, d: Block): nat
  {
    if path == [] then 0
    else
      var init := path[..|path| - 1];
      if Last(path) != b || (init != [] && Last(init) in self) then Held(init, b, self, d)
      else LastVisit(init, d)
  }

  /** A phi whose incomings are itself or one value: both are available at the end of the respective predecessors. */
  ghost predicate TrivialPhi(g: Cfg, b: Block, self: set<Block>, d: Block)
  {
    && b != g.entry
    && forall p :: (p, b) in g.edges ==> Dominates(g, if p in self then b else d, p)
  }

  /** Some run reaches the definition of the unique incoming without passing the phi. */
  lemma DefinedBefore(g: Cfg, b: Block, self: set<Block>, d: Block, path: seq<Block>) returns (r: seq<Block>)
    requires TrivialPhi(g, b, self, d) && IsPath(g, path) && b in path
    ensures IsPath(g, r) && Last(r) == d && b !in r
  {
    var first := Until(path, b);
    var init := first[..|first| - 1];
    assert first[0] != b;
    assert (Last(init), b) in g.edges;
    assert Last(init) !in self;
    r := Until(init, d);
  }

  /** The unique incoming of a trivial phi in a reachable block is defined in another block that dominates it. */
  lemma DefinedElsewhere(g: Cfg, b: Block, self: set<Block>, d: Block)
    requires TrivialPhi(g, b, self, d) && Reachable(g, b)
    ensures d != b && Dominates(g, d, b) && !Dominates(g, b, d)
  {
    var path :| IsPath(g, path) && Last(path) == b;
    var r := DefinedBefore(g, b, self, d, path);
    forall other | IsPath(g, other) && Last(other) == b
      ensures d in other
    {
      DominatesLater(g, b, self, d, other);
    }
  }

  lemma DominatesLater(g: Cfg, b: Block, self: set<Block>, d: Block, path: seq<Block>)
    requires TrivialPhi(g, b, self, d) && IsPath(g, path) && b in path
    ensures d in path
  {
    var first := Until(path, b);
    var init := first[..|first| - 1];
    assert first[0] != b;
    assert (Last(init), b) in g.edges;
    assert d in init;
  }

  /** At every point of every run where it may be used, a trivial phi holds the last execution of its unique incoming. */
  lemma {:induction false} TrivialPhiHolds(g: Cfg, b: Block, self: set<Block>, d: Block, path: seq<Block>)
    requires TrivialPhi(g, b, self, d) && Reachable(g, b)
    requires IsPath(g, path) && Dominates(g, b, Last(path))
    ensures Held(path, b, self, d) == LastVisit(path, d)
    decreases |path|
  {
    DefinedElsewhere(g, b, self, d);
    var init := path[..|path| - 1];
    assert b in path;
    if init != [] {
      assert (Last(init), Last(path)) in g.edges;
      if Last(path) != b {
        DominatesPredecessor(g, b, path);
        TrivialPhiHolds(g, b, self, d, init);
      } else if Last(init) in self {
        TrivialPhiHolds(g, b, self, d, init);
      }
    }
  }

  // ----- classifying the incomings of a phi -----

  /** The accumulator for the incomings other than the phi itself: none yet, only one value, or several values. */
  datatype Unique = NoneSeen | Only(value: Value) | Several

  function Next(u: Unique, phi: Value, incoming: Value): Unique
  {
    if incoming == phi then u
    else if u.NoneSeen? then Only(incoming)
    else if u.Only? && u.value == incoming then u
    else Several
  }

  function Accumulated(phi: Value, incomings: seq<Value>): Unique
  {
    if incomings == [] then NoneSeen
    else Next(Accumulated(phi, incomings[..|incomings| - 1]), phi, incomings[|incomings| - 1])
  }

  predicate OnlyComesIn(phi: Value, incomings: seq<Value>, v: Value)
  {
    v != phi && v in incomings && forall w :: w in incomings ==> w == phi || w == v
  }

  /** The three cases exclude each other, so the accumulator classifies the incomings exactly. */
  lemma {:induction false} AccumulatedExactly(phi: Value, incomings: seq<Value>)
    ensures match Accumulated(phi, incomings)
            case NoneSeen => forall v :: v in incomings ==> v == phi
            case Only(v) => OnlyComesIn(phi, incomings, v)
            case Several => exists v, w :: v in incomings && w in incomings && v != phi && w != phi && v != w
  {
    if incomings != [] {
      var init := incomings[..|incomings| - 1];
      var last := incomings[|incomings| - 1];
      AccumulatedExactly(phi, init);
      assert forall v :: v in incomings <==> v in init || v == last;
      match Accumulated(phi, init)
      case NoneSeen =>
      case Only(v) => assert v in incomings && last in incomings;
      case Several =>
        var v, w :| v in init && w in init && v != phi && w != phi && v != w;
        assert v in incomings && w in incomings;
    }
  }

  // ----- the state of the lowering -----

  /** A recorded phi, its incoming blocks and values, and the new phis, one for each component of its converted type. */
  datatype PhiRecord = PhiRecord(phi: Value, incoming: seq<(Block, Value)>, newPhis: seq<Value>)

  /** A replaced phi, the predecessors from which it came in itself, and its replacement. */
  datatype Replacement = Replacement(phi: Value, self: set<Block>, with: Value)

  /** The function that is lowered, and the block in which each old and new value is defined; values that are not
      defined by instructions count as defined in the entry block. */
  datatype Context = Context(g: Cfg, def: Value -> Block)

  type ValueMap = map<Value, seq<Value>>

  function Substituted(values: seq<Value>, from: Value, to: Value): (r: seq<Value>)
    ensures |r| == |values|
  {
    seq(|values|, i requires 0 <= i < |values| => if values[i] == from then to else values[i])
  }

  function SubstitutedAll(m: ValueMap, from: Value, to: Value): (r: ValueMap)
    ensures r.Keys == m.Keys
  {
    map k | k in m :: Substituted(m[k], from, to)
  }

  function ReplacedAll(m: ValueMap, replacements: seq<Replacement>): (r: ValueMap)
    ensures r.Keys == m.Keys
  {
    if replacements == [] then m
    else
      var last := replacements[|replacements| - 1];
      SubstitutedAll(ReplacedAll(m, replacements[..|replacements| - 1]), last.phi, last.with)
  }

  predicate Mentions(m: ValueMap, v: Value)
  {
    exists k :: k in m && v in m[k]
  }

  lemma SubstitutedMentions(m: ValueMap, from: Value, to: Value, v: Value)
    requires Mentions(SubstitutedAll(m, from, to), v)
    ensures v == to || (v != from && Mentions(m, v))
  {
    var k :| k in m && v in Substituted(m[k], from, to);
    var i :| 0 <= i < |m[k]| && Substituted(m[k], from, to)[i] == v;
    assert m[k][i] in m[k];
  }

  /** Whatever a value is mapped to is available where the value is. */
  ghost predicate Available(c: Context, m: ValueMap)
  {
    forall k, v :: k in m && v in m[k] ==> Dominates(c.g, c.def(v), c.def(k))
  }

  /** What SSA form says of a recorded phi, and that its incomings have been converted into as many values. */
  ghost predicate WellFormed(c: Context, m: ValueMap, r: PhiRecord)
  {
    var b := c.def(r.phi);
    && b != c.g.entry
    && (forall v :: v in r.newPhis ==> c.def(v) == b)
    && (forall k :: 0 <= k < |r.incoming| ==>
                      (r.incoming[k].0, b) in c.g.edges && Dominates(c.g, c.def(r.incoming[k].1), r.incoming[k].0))
    && (forall p :: (p, b) in c.g.edges ==> exists k :: 0 <= k < |r.incoming| && r.incoming[k].0 == p)
    && (forall j, k :: 0 <= j < k < |r.incoming| && r.incoming[j].0 == r.incoming[k].0 ==> r.incoming[j].1 == r.incoming[k].1)
    && (forall k :: 0 <= k < |r.incoming| ==> r.incoming[k].1 in m && |m[r.incoming[k].1]| == |r.newPhis|)
  }

  /** Component `i` of the converted incomings. */
  function Component(m: ValueMap, r: PhiRecord, i: nat): (s: seq<Value>)
    requires forall k :: 0 <= k < |r.incoming| ==> r.incoming[k].1 in m && i < |m[r.incoming[k].1]|
    ensures |s| == |r.incoming|
  {
    seq(|r.incoming|, k requires 0 <= k < |r.incoming| => m[r.incoming[k].1][i])
  }

  /** The predecessors from which component `i` of the phi comes in itself. */
  function SelfBlocks(m: ValueMap, r: PhiRecord, i: nat): set<Block>
    requires i < |r.newPhis|
    requires forall k :: 0 <= k < |r.incoming| ==> r.incoming[k].1 in m && i < |m[r.incoming[k].1]|
  {
    set k | 0 <= k < |r.incoming| && m[r.incoming[k].1][i] == r.newPhis[i] :: r.incoming[k].0
  }

  lemma SelfBlock(c: Context, m: ValueMap, r: PhiRecord, i: nat, k: nat)
    requires WellFormed(c, m, r) && i < |r.newPhis| && k < |r.incoming|
    ensures r.incoming[k].0 in SelfBlocks(m, r, i) <==> m[r.incoming[k].1][i] == r.newPhis[i]
  {
    hide Dominates;
    if r.incoming[k].0 in SelfBlocks(m, r, i) {
      var j :| 0 <= j < |r.incoming| && m[r.incoming[j].1][i] == r.newPhis[i] && r.incoming[j].0 == r.incoming[k].0;
      assert r.incoming[j].1 == r.incoming[k].1;
    }
  }

  /** A converted incoming is available at the end of its predecessor. */
  lemma IncomingAvailable(c: Context, m: ValueMap, r: PhiRecord, i: nat, k: nat)
    requires Available(c, m) && WellFormed(c, m, r) && i < |r.newPhis| && k < |r.incoming|
    ensures Dominates(c.g, c.def(m[r.incoming[k].1][i]), r.incoming[k].0)
  {
    hide Dominates;
    var x := r.incoming[k].1;
    assert m[x][i] in m[x];
    DominanceIsTransitive(c.g, c.def(m[x][i]), c.def(x), r.incoming[k].0);
  }

  /** A phi component with a unique incoming is trivial in the sense of TrivialPhiHolds. */
  lemma UniqueIsTrivial(c: Context, m: ValueMap, r: PhiRecord, i: nat, v: Value)
    requires Available(c, m) && WellFormed(c, m, r) && i < |r.newPhis|
    requires OnlyComesIn(r.newPhis[i], Component(m, r, i), v)
    ensures TrivialPhi(c.g, c.def(r.newPhis[i]), SelfBlocks(m, r, i), c.def(v))
  {
    hide Dominates;
    hide SelfBlocks;
    hide Available;
    var b := c.def(r.phi);
    var self := SelfBlocks(m, r, i);
    assert c.def(r.newPhis[i]) == b;
    forall p | (p, b) in c.g.edges
      ensures Dominates(c.g, if p in self then b else c.def(v), p)
    {
      var k :| 0 <= k < |r.incoming| && r.incoming[k].0 == p;
      assert m[r.incoming[k].1][i] in Component(m, r, i) by { assert Component(m, r, i)[k] == m[r.incoming[k].1][i]; }
      SelfBlock(c, m, r, i, k);
      IncomingAvailable(c, m, r, i, k);
    }
  }

  /** Replacing a phi by a value that dominates it keeps everything available. */
  lemma AvailableSubstituted(c: Context, m: ValueMap, from: Value, to: Value)
    requires Available(c, m) && Dominates(c.g, c.def(to), c.def(from))
    ensures Available(c, SubstitutedAll(m, from, to))
  {
    hide Dominates;
    var n := SubstitutedAll(m, from, to);
    forall k, v | k in n && v in n[k]
      ensures Dominates(c.g, c.def(v), c.def(k))
    {
      var i :| 0 <= i < |n[k]| && n[k][i] == v;
      assert m[k][i] in m[k];
      if m[k][i] == from { DominanceIsTransitive(c.g, c.def(to), c.def(from), c.def(k)); }
    }
  }

  // ----- finishing the phis -----

  /** The values that the recorded phis were split into are all different. */
  predicate DistinctPhis(records: seq<PhiRecord>)
  {
    && (forall a, i, j :: 0 <= a < |records| && 0 <= i < j < |records[a].newPhis| ==> records[a].newPhis[i] != records[a].newPhis[j])
    && (forall a, b, v :: 0 <= a < b < |records| && v in records[a].newPhis ==> v !in records[b].newPhis)
  }

  /** The new phis of a record have the converted incomings as their operands. */
  ghost predicate Filled(m: ValueMap, operands: ValueMap, r: PhiRecord)
  {
    && (forall k :: 0 <= k < |r.incoming| ==> r.incoming[k].1 in m && |m[r.incoming[k].1]| == |r.newPhis|)
    && (forall i :: 0 <= i < |r.newPhis| ==> r.newPhis[i] in operands && operands[r.newPhis[i]] == Component(m, r, i))
  }

  /** The state after the first `n` incomings: the accumulators, and the operands of the new phis. */
  ghost predicate Collected(m: ValueMap, operands: ValueMap, r: PhiRecord, unique: seq<Unique>, n: nat)
    requires n <= |r.incoming| && forall k :: 0 <= k < |r.incoming| ==> r.incoming[k].1 in m && |m[r.incoming[k].1]| == |r.newPhis|
  {
    && |unique| == |r.newPhis|
    && (forall i :: 0 <= i < |r.newPhis| ==> r.newPhis[i] in operands && operands[r.newPhis[i]] == Component(m, r, i)[..n])
    && (forall i :: 0 <= i < |r.newPhis| ==> unique[i] == Accumulated(r.newPhis[i], Component(m, r, i)[..n]))
  }

  lemma CollectedNext(m: ValueMap, operands: ValueMap, r: PhiRecord, unique: seq<Unique>, n: nat, later: ValueMap, next: seq<Unique>)
    requires n < |r.incoming| && forall k :: 0 <= k < |r.incoming| ==> r.incoming[k].1 in m && |m[r.incoming[k].1]| == |r.newPhis|
    requires Collected(m, operands, r, unique, n) && operands.Keys == later.Keys
    requires |next| == |unique| && forall i :: 0 <= i < |next| ==> next[i] == Next(unique[i], r.newPhis[i], m[r.incoming[n].1][i])
    requires forall i :: 0 <= i < |r.newPhis| ==> r.newPhis[i] in operands && later[r.newPhis[i]] == operands[r.newPhis[i]] + [m[r.incoming[n].1][i]]
    ensures Collected(m, later, r, next, n + 1)
  {
    hide Next;
    forall i | 0 <= i < |r.newPhis|
      ensures later[r.newPhis[i]] == Component(m, r, i)[..n + 1]
      ensures next[i] == Accumulated(r.newPhis[i], Component(m, r, i)[..n + 1])
    {
      var s := Component(m, r, i);
      assert s[..n + 1] == s[..n] + [m[r.incoming[n].1][i]];
      assert s[..n + 1][..n] == s[..n];
    }
  }

  lemma CollectedAll(m: ValueMap, operands: ValueMap, r: PhiRecord, unique: seq<Unique>)
    requires forall k :: 0 <= k < |r.incoming| ==> r.incoming[k].1 in m && |m[r.incoming[k].1]| == |r.newPhis|
    requires Collected(m, operands, r, unique, |r.incoming|)
    ensures Filled(m, operands, r) && |unique| == |r.newPhis|
    ensures forall i :: 0 <= i < |unique| ==> unique[i] == Accumulated(r.newPhis[i], Component(m, r, i))
  {
    forall i | 0 <= i < |r.newPhis| ensures Component(m, r, i)[..|r.incoming|] == Component(m, r, i) {
    }
  }

  lemma FilledSubstituted(m: ValueMap, operands: ValueMap, r: PhiRecord, from: Value, to: Value)
    requires Filled(m, operands, r)
    ensures Filled(SubstitutedAll(m, from, to), SubstitutedAll(operands, from, to), r)
  {
    var n, o := SubstitutedAll(m, from, to), SubstitutedAll(operands, from, to);
    forall i | 0 <= i < |r.newPhis| ensures o[r.newPhis[i]] == Component(n, r, i) {
      assert operands[r.newPhis[i]] == Component(m, r, i);
    }
  }

  ghost predicate Justified(c: Context, x: Replacement)
  {
    && TrivialPhi(c.g, c.def(x.phi), x.self, c.def(x.with))
    && Reachable(c.g, c.def(x.phi))
  }

  /** The state in which the phis are recorded: everything mapped is available, and the new phis have no operands yet. */
  ghost predicate Recorded(c: Context, m: ValueMap, operands: ValueMap, records: seq<PhiRecord>)
  {
    && Available(c, m)
    && DistinctPhis(records)
    && (forall r :: r in records ==> WellFormed(c, m, r) && Reachable(c.g, c.def(r.phi)))
    && (forall r, v :: r in records && v in r.newPhis ==> v in operands && operands[v] == [])
  }

  /** What the records say of each other and of the maps: every incoming has been converted into as many values as the phi. */
  ghost predicate Consistent(m: ValueMap, records: seq<PhiRecord>)
  {
    && DistinctPhis(records)
    && forall r, k :: r in records && 0 <= k < |r.incoming| ==> r.incoming[k].1 in m && |m[r.incoming[k].1]| == |r.newPhis|
  }

  /** The state when the records from `n` on have been finished, whatever the control flow is. */
  ghost predicate Progress(start: ValueMap, m: ValueMap, operands: ValueMap, records: seq<PhiRecord>, n: nat,
                           replacements: seq<Replacement>)
  {
    && n <= |records| && Consistent(m, records)
    && (forall a, v :: 0 <= a < n && v in records[a].newPhis ==> v in operands && operands[v] == [])
    && (forall a :: n <= a < |records| ==> Filled(m, operands, records[a]))
    && m == ReplacedAll(start, replacements)
  }

  /** The same, if in addition the records are those of valid code in reachable blocks. */
  ghost predicate Finishing(c: Context, start: ValueMap, m: ValueMap, operands: ValueMap, records: seq<PhiRecord>, n: nat,
                            replacements: seq<Replacement>)
  {
    && Progress(start, m, operands, records, n, replacements)
    && Available(c, m)
    && (forall r :: r in records ==> WellFormed(c, m, r) && Reachable(c.g, c.def(r.phi)))
    && (forall x :: x in replacements ==> Justified(c, x) && !Mentions(m, x.phi) && !Mentions(operands, x.phi))
  }

  // ----- which phis are replaced -----

  /** The replacements for the first `i` components of a phi, by the accumulators over its incomings. */
  function RecordReplacements(m: ValueMap, r: PhiRecord, i: nat): (s: seq<Replacement>)
    requires i <= |r.newPhis|
    requires forall k :: 0 <= k < |r.incoming| ==> r.incoming[k].1 in m && |m[r.incoming[k].1]| == |r.newPhis|
    ensures forall x :: x in s ==> x.phi in r.newPhis[..i] && x.with != x.phi
  {
    if i == 0 then []
    else
      var init := RecordReplacements(m, r, i - 1);
      var phi := r.newPhis[i - 1];
      var unique := Accumulated(phi, Component(m, r, i - 1));
      assert r.newPhis[..i][..i - 1] == r.newPhis[..i - 1];
      AccumulatedExactly(phi, Component(m, r, i - 1));
      if unique.Only? then init + [Replacement(phi, SelfBlocks(m, r, i - 1), unique.value)] else init
  }

  /** The replacements for all records, the last one first; each sees the mappings that the ones before have left. */
  ghost function AllReplacements(m: ValueMap, records: seq<PhiRecord>): seq<Replacement>
    requires Consistent(m, records)
    decreases |records|
  {
    if records == [] then []
    else
      var r := records[|records| - 1];
      var first := RecordReplacements(m, r, |r.newPhis|);
      ConsistentReplaced(m, records, first);
      first + AllReplacements(ReplacedAll(m, first), records[..|records| - 1])
  }

  lemma {:induction false} ConsistentReplaced(m: ValueMap, records: seq<PhiRecord>, replacements: seq<Replacement>)
    requires Consistent(m, records)
    ensures records != [] ==> Consistent(ReplacedAll(m, replacements), records[..|records| - 1])
    ensures Consistent(ReplacedAll(m, replacements), records)
    decreases |replacements|
  {
    if replacements != [] {
      ConsistentReplaced(m, records, replacements[..|replacements| - 1]);
    }
  }

  lemma RecordNext(m: ValueMap, r: PhiRecord, i: nat)
    requires i < |r.newPhis|
    requires forall k :: 0 <= k < |r.incoming| ==> r.incoming[k].1 in m && |m[r.incoming[k].1]| == |r.newPhis|
    ensures RecordReplacements(m, r, i + 1) ==
            var unique := Accumulated(r.newPhis[i], Component(m, r, i));
            if unique.Only? then RecordReplacements(m, r, i) + [Replacement(r.newPhis[i], SelfBlocks(m, r, i), unique.value)]
            else RecordReplacements(m, r, i)
  {
  }

  lemma RecordStart(m: ValueMap, r: PhiRecord)
    requires forall k :: 0 <= k < |r.incoming| ==> r.incoming[k].1 in m && |m[r.incoming[k].1]| == |r.newPhis|
    ensures RecordReplacements(m, r, 0) == []
  {
  }

  lemma ReplacedNext(m: ValueMap, replacements: seq<Replacement>, x: Replacement)
    ensures ReplacedAll(m, []) == m
    ensures ReplacedAll(m, replacements + [x]) == SubstitutedAll(ReplacedAll(m, replacements), x.phi, x.with)
  {
    assert (replacements + [x])[..|replacements|] == replacements;
  }

  lemma AllNext(m: ValueMap, records: seq<PhiRecord>, n: nat)
    requires n < |records| && Consistent(m, records[..n + 1])
    ensures var r := records[n];
            && (forall k :: 0 <= k < |r.incoming| ==> r.incoming[k].1 in m && |m[r.incoming[k].1]| == |r.newPhis|)
            && var first := RecordReplacements(m, r, |r.newPhis|);
            && Consistent(ReplacedAll(m, first), records[..n])
            && AllReplacements(m, records[..n + 1]) == first + AllReplacements(ReplacedAll(m, first), records[..n])
  {
    assert records[..n + 1][..n] == records[..n] && records[..n + 1][n] == records[n];
    assert records[n] in records[..n + 1];
    ConsistentReplaced(m, records[..n + 1], RecordReplacements(m, records[n], |records[n].newPhis|));
  }

  ghost function Erased(toErase: seq<Value>, replacements: seq<Replacement>): seq<Value>
  {
    toErase + seq(|replacements|, k requires 0 <= k < |replacements| => replacements[k].phi)
  }

  lemma ErasedAre(toErase: seq<Value>, replacements: seq<Replacement>)
    ensures Erased(toErase, []) == toErase && |Erased(toErase, replacements)| == |toErase| + |replacements|
    ensures forall k :: 0 <= k < |replacements| ==> Erased(toErase, replacements)[|toErase| + k] == replacements[k].phi
  {
  }

  lemma ErasedNext(toErase: seq<Value>, replacements: seq<Replacement>, x: Replacement)
    ensures Erased(toErase, replacements + [x]) == Erased(toErase, replacements) + [x.phi]
  {
  }

  lemma StartsFinishing(c: Context, m: ValueMap, operands: ValueMap, records: seq<PhiRecord>)
    requires Recorded(c, m, operands, records)
    ensures Startable(m, operands, records) && Finishing(c, m, m, operands, records, |records|, [])
  {
    hide Available;
    hide Reachable;
    hide Dominates;
  }

  lemma StartsProgress(m: ValueMap, operands: ValueMap, records: seq<PhiRecord>)
    requires Startable(m, operands, records)
    ensures Consistent(m, records) && Progress(m, m, operands, records, |records|, [])
  {
  }

  /** The new phis have no operands yet. */
  ghost predicate Startable(m: ValueMap, operands: ValueMap, records: seq<PhiRecord>)
  {
    Consistent(m, records) && forall r, v :: r in records && v in r.newPhis ==> v in operands && operands[v] == []
  }

  lemma BeforeCollecting(start: ValueMap, m: ValueMap, operands: ValueMap, records: seq<PhiRecord>, n: nat,
                         replacements: seq<Replacement>)
    requires n < |records| && Progress(start, m, operands, records, n + 1, replacements)
    ensures var r := records[n];
            && (forall k :: 0 <= k < |r.incoming| ==> r.incoming[k].1 in m && |m[r.incoming[k].1]| == |r.newPhis|)
            && (forall i :: 0 <= i < |r.newPhis| ==> r.newPhis[i] in operands && operands[r.newPhis[i]] == [])
            && (forall i, j :: 0 <= i < j < |r.newPhis| ==> r.newPhis[i] != r.newPhis[j])
  {
    hide Filled;
    assert records[n] in records;
  }

  /** Filling in the operands of the phis of one record. */
  lemma ProgressCollected(start: ValueMap, m: ValueMap, before: ValueMap, operands: ValueMap, records: seq<PhiRecord>, n: nat,
                          replacements: seq<Replacement>)
    requires n < |records| && Progress(start, m, before, records, n + 1, replacements)
    requires operands.Keys == before.Keys && Filled(m, operands, records[n])
    requires forall k :: k in operands && k !in records[n].newPhis ==> operands[k] == before[k]
    ensures Progress(start, m, operands, records, n, replacements)
  {
    hide Component;
  }

  /** It mentions nothing that was not mentioned before. */
  lemma AfterCollecting(c: Context, start: ValueMap, m: ValueMap, before: ValueMap, operands: ValueMap, records: seq<PhiRecord>, n: nat,
                        replacements: seq<Replacement>)
    requires n < |records| && Finishing(c, start, m, before, records, n + 1, replacements)
    requires operands.Keys == before.Keys && Filled(m, operands, records[n])
    requires forall k :: k in operands && k !in records[n].newPhis ==> operands[k] == before[k]
    ensures Finishing(c, start, m, operands, records, n, replacements)
  {
    ProgressCollected(start, m, before, operands, records, n, replacements);
    hide Progress;
    hide Available;
    hide Reachable;
    hide Justified;
    hide WellFormed;
    hide Component;
    var r := records[n];
    forall v | Mentions(operands, v) ensures Mentions(before, v) || Mentions(m, v) {
      FilledMentions(m, before, operands, r, v);
    }
    hide Mentions;
  }

  lemma FilledMentions(m: ValueMap, before: ValueMap, operands: ValueMap, r: PhiRecord, v: Value)
    requires operands.Keys == before.Keys && Filled(m, operands, r)
    requires forall k :: k in operands && k !in r.newPhis ==> operands[k] == before[k]
    requires Mentions(operands, v)
    ensures Mentions(before, v) || Mentions(m, v)
  {
    var k :| k in operands && v in operands[k];
    if k in r.newPhis {
      var i :| 0 <= i < |r.newPhis| && r.newPhis[i] == k;
      ComponentMentions(m, r, i, v);
    }
  }

  lemma ComponentMentions(m: ValueMap, r: PhiRecord, i: nat, v: Value)
    requires forall k :: 0 <= k < |r.incoming| ==> r.incoming[k].1 in m && i < |m[r.incoming[k].1]|
    requires v in Component(m, r, i)
    ensures Mentions(m, v)
  {
    var j :| 0 <= j < |r.incoming| && Component(m, r, i)[j] == v;
    assert m[r.incoming[j].1][i] in m[r.incoming[j].1];
  }

  lemma WellFormedSubstituted(c: Context, m: ValueMap, r: PhiRecord, from: Value, to: Value)
    requires WellFormed(c, m, r)
    ensures WellFormed(c, SubstitutedAll(m, from, to), r)
  {
    hide Dominates;
  }

  /** The replacement of a phi with a unique incoming is justified, and is neither replaced itself nor a phi of the
      same record, because it is defined in another block. */
  lemma UniqueJustified(c: Context, start: ValueMap, m: ValueMap, before: ValueMap, records: seq<PhiRecord>, n: nat,
                        replacements: seq<Replacement>, i: nat, v: Value)
    requires n < |records| && Finishing(c, start, m, before, records, n + 1, replacements)
    requires forall k :: 0 <= k < |records[n].incoming| ==>
                           records[n].incoming[k].1 in m && |m[records[n].incoming[k].1]| == |records[n].newPhis|
    requires i < |records[n].newPhis| && Accumulated(records[n].newPhis[i], Component(m, records[n], i)) == Only(v)
    ensures Justified(c, Replacement(records[n].newPhis[i], SelfBlocks(m, records[n], i), v))
    ensures Dominates(c.g, c.def(v), c.def(records[n].newPhis[i]))
    ensures v !in records[n].newPhis
    ensures forall x :: x in replacements ==> x.phi != v
  {
    hide Available;
    hide Filled;
    hide Mentions;
    hide Dominates;
    hide SelfBlocks;
    hide Component;
    var r := records[n];
    assert r in records && WellFormed(c, m, r);
    AccumulatedExactly(r.newPhis[i], Component(m, r, i));
    ComponentMentions(m, r, i, v);
    UniqueIsTrivial(c, m, r, i, v);
    assert r in records;
    assert c.def(r.newPhis[i]) == c.def(r.phi);
    DefinedElsewhere(c.g, c.def(r.phi), SelfBlocks(m, r, i), c.def(v));
  }

  lemma ProgressReplaced(start: ValueMap, m: ValueMap, operands: ValueMap, records: seq<PhiRecord>, n: nat,
                         replacements: seq<Replacement>, x: Replacement)
    requires Progress(start, m, operands, records, n, replacements)
    ensures Progress(start, SubstitutedAll(m, x.phi, x.with), SubstitutedAll(operands, x.phi, x.with), records, n, replacements + [x])
  {
    hide Filled;
    hide DistinctPhis;
    var later, laterOperands := SubstitutedAll(m, x.phi, x.with), SubstitutedAll(operands, x.phi, x.with);
    forall a | n <= a < |records| ensures Filled(later, laterOperands, records[a]) {
      FilledSubstituted(m, operands, records[a], x.phi, x.with);
    }
    assert (replacements + [x])[..|replacements|] == replacements;
  }

  /** Replacing one more phi. */
  lemma KeepsFinishing(c: Context, start: ValueMap, m: ValueMap, operands: ValueMap, records: seq<PhiRecord>, n: nat,
                       replacements: seq<Replacement>, x: Replacement)
    requires Finishing(c, start, m, operands, records, n, replacements)
    requires Justified(c, x) && Dominates(c.g, c.def(x.with), c.def(x.phi)) && x.with != x.phi
    requires forall y :: y in replacements ==> y.phi != x.with
    ensures Finishing(c, start, SubstitutedAll(m, x.phi, x.with), SubstitutedAll(operands, x.phi, x.with), records, n, replacements + [x])
  {
    ProgressReplaced(start, m, operands, records, n, replacements, x);
    hide Progress;
    hide Available;
    hide Reachable;
    hide Justified;
    hide WellFormed;
    hide Filled;
    hide Dominates;
    hide Mentions;
    var later, laterOperands := SubstitutedAll(m, x.phi, x.with), SubstitutedAll(operands, x.phi, x.with);
    AvailableSubstituted(c, m, x.phi, x.with);
    forall r | r in records ensures WellFormed(c, later, r) { WellFormedSubstituted(c, m, r, x.phi, x.with); }
    forall y | y in replacements + [x] ensures Justified(c, y) && !Mentions(later, y.phi) && !Mentions(laterOperands, y.phi) {
      if Mentions(later, y.phi) { SubstitutedMentions(m, x.phi, x.with, y.phi); }
      if Mentions(laterOperands, y.phi) { SubstitutedMentions(operands, x.phi, x.with, y.phi); }
    }
  }

  lemma Finished(c: Context, start: ValueMap, m: ValueMap, operands: ValueMap, records: seq<PhiRecord>, replacements: seq<Replacement>,
                 recorded: bool)
    requires Progress(start, m, operands, records, 0, replacements)
    requires recorded ==> Finishing(c, start, m, operands, records, 0, replacements)
    ensures Consistent(m, records[..0]) && AllReplacements(m, records[..0]) == []
    ensures m == ReplacedAll(start, replacements) && forall r :: r in records ==> Filled(m, operands, r)
    ensures recorded ==> forall x :: x in replacements ==> Justified(c, x) && !Mentions(m, x.phi) && !Mentions(operands, x.phi)
  {
    hide Available;
    hide WellFormed;
    hide Justified;
    hide Mentions;
    hide Filled;
  }

  class TypeLowering {
    var valueMap: ValueMap
    var phis: seq<PhiRecord>
    /** The operands of the instructions of the lowered function. */
    var operands: ValueMap
    var instructionsToErase: seq<Value>

    /** Finishes the recorded phis, the last one first: in every mapping and every operand list, exactly the phis with a unique
        incoming are replaced by it, and the phis that remain have the converted incomings as their operands.  For valid code
        in reachable blocks, TrivialPhiHolds says that the replacement is the same at every point where the phi may be used,
        and no replaced phi is mentioned any more. */
    method FinishPhis(ghost c: Context) returns (ghost replacements: seq<Replacement>)
      requires Startable(valueMap, operands, phis)
      modifies this
      ensures phis == []
      ensures replacements == AllReplacements(old(valueMap), old(phis))
      ensures valueMap == ReplacedAll(old(valueMap), replacements)
      ensures forall r :: r in old(phis) ==> Filled(valueMap, operands, r)
      ensures |instructionsToErase| == |old(instructionsToErase)| + |replacements|
      ensures forall k :: 0 <= k < |replacements| ==> instructionsToErase[|old(instructionsToErase)| + k] == replacements[k].phi
      ensures old(Recorded(c, valueMap, operands, phis)) ==>
                forall x :: x in replacements ==> Justified(c, x) && !Mentions(valueMap, x.phi) && !Mentions(operands, x.phi)
    {
      hide *;
      replacements := [];
      ghost var recorded := Recorded(c, valueMap, operands, phis);
      ErasedAre(instructionsToErase, []);
      StartsProgress(valueMap, operands, phis);
      if recorded {
        StartsFinishing(c, valueMap, operands, phis);
      }
      var n := |phis|;
      assert phis[..n] == phis;
      while n > 0
        invariant 0 <= n <= |phis| && phis == old(phis)
        invariant Progress(old(valueMap), valueMap, operands, phis, n, replacements)
        invariant Consistent(old(valueMap), phis) && Consistent(valueMap, phis[..n])
        invariant AllReplacements(old(valueMap), phis) == replacements + AllReplacements(valueMap, phis[..n])
        invariant recorded ==> Finishing(c, old(valueMap), valueMap, operands, phis, n, replacements)
        invariant instructionsToErase == Erased(old(instructionsToErase), replacements)
      {
        n := n - 1;
        AllNext(valueMap, phis, n);
        ghost var replaced := FinishPhi(c, n, old(valueMap), replacements, old(instructionsToErase), recorded);
        ghost var rest := AllReplacements(valueMap, phis[..n]);
        assert replacements + (replaced + rest) == (replacements + replaced) + rest;
        replacements := replacements + replaced;
      }
      ErasedAre(old(instructionsToErase), replacements);
      assert replacements + [] == replacements;
      Finished(c, old(valueMap), valueMap, operands, phis, replacements, recorded);
      phis := [];
    }

    /** One recorded phi. */
    method FinishPhi(ghost c: Context, n: nat, ghost start: ValueMap, ghost earlier: seq<Replacement>, ghost toErase: seq<Value>,
                     ghost recorded: bool)
      returns (ghost replaced: seq<Replacement>)
      requires n < |phis| && Progress(start, valueMap, operands, phis, n + 1, earlier)
      requires recorded ==> Finishing(c, start, valueMap, operands, phis, n + 1, earlier)
      requires instructionsToErase == Erased(toErase, earlier)
      modifies this
      ensures phis == old(phis)
      ensures forall k :: 0 <= k < |phis[n].incoming| ==>
                            phis[n].incoming[k].1 in old(valueMap) && |old(valueMap)[phis[n].incoming[k].1]| == |phis[n].newPhis|
      ensures replaced == RecordReplacements(old(valueMap), phis[n], |phis[n].newPhis|)
      ensures valueMap == ReplacedAll(old(valueMap), replaced)
      ensures Progress(start, valueMap, operands, phis, n, earlier + replaced)
      ensures recorded ==> Finishing(c, start, valueMap, operands, phis, n, earlier + replaced)
      ensures instructionsToErase == Erased(toErase, earlier + replaced)
    {
      hide Progress;
      hide Finishing;
      hide Filled;
      hide RecordReplacements;
      hide ReplacedAll;
      hide Accumulated;
      hide Component;
      hide Erased;
      var r := phis[n];
      replaced := [];
      ghost var before := operands;
      BeforeCollecting(start, valueMap, operands, phis, n, earlier);
      var unique := CollectIncomings(r);
      ghost var m := valueMap;
      ProgressCollected(start, valueMap, before, operands, phis, n, earlier);
      if recorded {
        AfterCollecting(c, start, valueMap, before, operands, phis, n, earlier);
      }
      assert earlier + replaced == earlier;
      var i := 0;
      ReplacedNext(m, [], Replacement(0, {}, 0));
      RecordStart(m, r);
      while i < |r.newPhis|
        invariant 0 <= i <= |r.newPhis| && phis == old(phis)
        invariant replaced == RecordReplacements(m, r, i) && valueMap == ReplacedAll(m, replaced)
        invariant Progress(start, valueMap, operands, phis, n, earlier + replaced)
        invariant recorded ==> Finishing(c, start, valueMap, operands, phis, n, earlier + replaced)
        invariant instructionsToErase == Erased(toErase, earlier + replaced)
      {
        RecordNext(m, r, i);
        if unique[i].Only? {
          var replace := unique[i].value;
          ghost var x := Replacement(r.newPhis[i], SelfBlocks(m, r, i), replace);
          ProgressReplaced(start, valueMap, operands, phis, n, earlier + replaced, x);
          if recorded {
            UniqueJustified(c, start, m, before, phis, n, earlier, i, replace);
            KeepsFinishing(c, start, valueMap, operands, phis, n, earlier + replaced, x);
          }
          ReplacePhi(r.newPhis[i], replace);
          ErasedNext(toErase, earlier + replaced, x);
          assert earlier + (replaced + [x]) == earlier + replaced + [x];
          ReplacedNext(m, replaced, x);
          replaced := replaced + [x];
        }
        i := i + 1;
      }
    }

    /** The new phi is replaced in all uses, in all mappings, and will be erased. */
    method ReplacePhi(newPhi: Value, replace: Value)
      modifies this
      ensures valueMap == SubstitutedAll(old(valueMap), newPhi, replace)
      ensures operands == SubstitutedAll(old(operands), newPhi, replace)
      ensures instructionsToErase == old(instructionsToErase) + [newPhi]
      ensures phis == old(phis)
    {
      operands := SubstitutedAll(operands, newPhi, replace);
      valueMap := SubstitutedAll(valueMap, newPhi, replace);
      instructionsToErase := instructionsToErase + [newPhi];
    }

    /** One incoming block for all components. */
    method AddIncoming(r: PhiRecord, converted: seq<Value>, unique: seq<Unique>) returns (next: seq<Unique>)
      requires |converted| == |unique| == |r.newPhis|
      requires forall i :: 0 <= i < |r.newPhis| ==> r.newPhis[i] in operands
      requires forall i, j :: 0 <= i < j < |r.newPhis| ==> r.newPhis[i] != r.newPhis[j]
      modifies this`operands
      ensures |next| == |unique| && forall i :: 0 <= i < |next| ==> next[i] == Next(unique[i], r.newPhis[i], converted[i])
      ensures operands.Keys == old(operands.Keys)
      ensures forall i :: 0 <= i < |r.newPhis| ==> operands[r.newPhis[i]] == old(operands)[r.newPhis[i]] + [converted[i]]
      ensures forall k :: k in operands && k !in r.newPhis ==> operands[k] == old(operands)[k]
    {
      next := unique;
      var i := 0;
      while i < |r.newPhis|
        invariant 0 <= i <= |r.newPhis| && |next| == |unique|
        invariant forall j :: 0 <= j < i ==> next[j] == Next(unique[j], r.newPhis[j], converted[j])
        invariant forall j :: i <= j < |next| ==> next[j] == unique[j]
        invariant operands.Keys == old(operands.Keys)
        invariant forall j :: 0 <= j < i ==> operands[r.newPhis[j]] == old(operands)[r.newPhis[j]] + [converted[j]]
        invariant forall j :: i <= j < |r.newPhis| ==> operands[r.newPhis[j]] == old(operands)[r.newPhis[j]]
        invariant forall k :: k in operands && k !in r.newPhis ==> operands[k] == old(operands)[k]
      {
        var newPhi, newValue := r.newPhis[i], converted[i];
        if newValue != newPhi {
          if next[i].NoneSeen? {
            next := next[i := Only(newValue)];
          } else if next[i] != Only(newValue) {
            next := next[i := Several];
          }
        }
        operands := operands[newPhi := operands[newPhi] + [newValue]];
        i := i + 1;
      }
    }

    /** All incomings of a recorded phi. */
    method CollectIncomings(r: PhiRecord) returns (unique: seq<Unique>)
      requires forall k :: 0 <= k < |r.incoming| ==> r.incoming[k].1 in valueMap && |valueMap[r.incoming[k].1]| == |r.newPhis|
      requires forall i :: 0 <= i < |r.newPhis| ==> r.newPhis[i] in operands && operands[r.newPhis[i]] == []
      requires forall i, j :: 0 <= i < j < |r.newPhis| ==> r.newPhis[i] != r.newPhis[j]
      modifies this`operands
      ensures |unique| == |r.newPhis|
      ensures forall i :: 0 <= i < |unique| ==> unique[i] == Accumulated(r.newPhis[i], Component(valueMap, r, i))
      ensures operands.Keys == old(operands.Keys) && Filled(valueMap, operands, r)
      ensures forall k :: k in operands && k !in r.newPhis ==> operands[k] == old(operands)[k]
    {
      hide Collected;
      hide Filled;
      hide Component;
      hide Accumulated;
      unique := seq(|r.newPhis|, _ => NoneSeen);
      CollectedNothing(valueMap, operands, r, unique);
      var k := 0;
      while k < |r.incoming|
        invariant 0 <= k <= |r.incoming| && |unique| == |r.newPhis|
        invariant Collected(valueMap, operands, r, unique, k)
        invariant operands.Keys == old(operands.Keys)
        invariant forall x :: x in operands && x !in r.newPhis ==> operands[x] == old(operands)[x]
      {
        var converted := valueMap[r.incoming[k].1];
        ghost var before, seen := operands, unique;
        unique := AddIncoming(r, converted, unique);
        CollectedNext(valueMap, before, r, seen, k, operands, unique);
        k := k + 1;
      }
      CollectedAll(valueMap, operands, r, unique);
    }
  }

  lemma CollectedNothing(m: ValueMap, operands: ValueMap, r: PhiRecord, unique: seq<Unique>)
    requires forall k :: 0 <= k < |r.incoming| ==> r.incoming[k].1 in m && |m[r.incoming[k].1]| == |r.newPhis|
    requires forall i :: 0 <= i < |r.newPhis| ==> r.newPhis[i] in operands && operands[r.newPhis[i]] == []
    requires |unique| == |r.newPhis| && forall i :: 0 <= i < |unique| ==> unique[i] == NoneSeen
    ensures Collected(m, operands, r, unique, 0)
  {
  }

  // ----- when a replaced phi remains -----

  lemma MentionsSubstituted(m: ValueMap, from: Value, to: Value, v: Value)
    requires from != to
    ensures Mentions(SubstitutedAll(m, from, to), v) <==> (v != from && Mentions(m, v)) || (v == to && Mentions(m, from))
  {
    var n := SubstitutedAll(m, from, to);
    if Mentions(n, v) {
      SubstitutedMentions(m, from, to, v);
      var k :| k in n && v in n[k];
      var i :| 0 <= i < |n[k]| && n[k][i] == v;
      assert m[k][i] in m[k];
    }
    if k, i :| k in m && 0 <= i < |m[k]| && (m[k][i] == v || m[k][i] == from) {
      assert n[k][i] in n[k];
    }
    if v != from && Mentions(m, v) {
      var k :| k in m && v in m[k];
      var i :| 0 <= i < |m[k]| && m[k][i] == v;
      assert n[k][i] in n[k];
    }
    if v == to && Mentions(m, from) {
      var k :| k in m && from in m[k];
      var i :| 0 <= i < |m[k]| && m[k][i] == from;
      assert n[k][i] in n[k];
    }
  }

  /** All replaced phis are different. */
  predicate Differ(s: seq<Replacement>)
  {
    forall j, k :: 0 <= j < k < |s| ==> s[j].phi != s[k].phi
  }

  lemma BothDiffer(s: seq<Replacement>, t: seq<Replacement>)
    requires Differ(s) && Differ(t) && forall x, y :: x in s && y in t ==> x.phi != y.phi
    ensures Differ(s + t)
  {
    forall j, k | 0 <= j < |s| <= k < |s + t|
      ensures (s + t)[j].phi != (s + t)[k].phi
    {
      assert s[j] in s && t[k - |s|] in t;
    }
  }

  /** A later replacement puts the phi in again. */
  ghost predicate Reintroduced(start: ValueMap, replacements: seq<Replacement>, phi: Value, j: nat)
    requires j < |replacements|
  {
    replacements[j].with == phi && Mentions(ReplacedAll(start, replacements[..j]), replacements[j].phi)
  }

  /** After any sequence of replacements of different phis, a replaced phi is still mentioned exactly if a later replacement has put
      it in again. */
  lemma {:induction false} RemainsExactly(start: ValueMap, replacements: seq<Replacement>, i: nat)
    requires i < |replacements| && forall j :: 0 <= j < |replacements| ==> replacements[j].with != replacements[j].phi
    requires Differ(replacements)
    ensures Mentions(ReplacedAll(start, replacements), replacements[i].phi) <==>
            exists j :: i < j < |replacements| && Reintroduced(start, replacements, replacements[i].phi, j)
    decreases |replacements|
  {
    hide Mentions;
    var n := |replacements| - 1;
    var init, last, phi := replacements[..n], replacements[n], replacements[i].phi;
    MentionsSubstituted(ReplacedAll(start, init), last.phi, last.with, phi);
    if i < n {
      RemainsExactly(start, init, i);
      forall j | 0 <= j < n
        ensures Reintroduced(start, replacements, phi, j) <==> Reintroduced(start, init, phi, j)
      {
        assert replacements[..j] == init[..j];
      }
      if exists j :: i < j < |replacements| && Reintroduced(start, replacements, phi, j) {
        var j :| i < j < |replacements| && Reintroduced(start, replacements, phi, j);
        if j < n { assert Reintroduced(start, init, phi, j); }
      }
      if exists j :: i < j < n && Reintroduced(start, init, phi, j) {
        var j :| i < j < n && Reintroduced(start, init, phi, j);
        assert Reintroduced(start, replacements, phi, j);
      }
      assert Reintroduced(start, replacements, phi, n) <==> last.with == phi && Mentions(ReplacedAll(start, init), last.phi);
    }
  }

  /** The phis that finishing replaces are different, and none is replaced by itself. */
  lemma {:induction false} ReplacedPhisDiffer(m: ValueMap, records: seq<PhiRecord>, n: nat)
    requires DistinctPhis(records) && n <= |records| && Consistent(m, records[..n])
    ensures forall x :: x in AllReplacements(m, records[..n]) ==>
                          x.with != x.phi && exists a :: 0 <= a < n && x.phi in records[a].newPhis
    ensures Differ(AllReplacements(m, records[..n]))
    decreases n
  {
    if n != 0 {
      var r := records[n - 1];
      AllNext(m, records, n - 1);
      RecordPhisDiffer(m, records, r, n - 1, |r.newPhis|);
      var first := RecordReplacements(m, r, |r.newPhis|);
      hide *;
      ReplacedPhisDiffer(ReplacedAll(m, first), records, n - 1);
      PhisOfRecordsDiffer(records, n, first, AllReplacements(ReplacedAll(m, first), records[..n - 1]));
    }
  }

  lemma PhisOfRecordsDiffer(records: seq<PhiRecord>, n: nat, first: seq<Replacement>, rest: seq<Replacement>)
    requires DistinctPhis(records) && 0 < n <= |records| && Differ(first) && Differ(rest)
    requires forall x :: x in first ==> x.with != x.phi && x.phi in records[n - 1].newPhis
    requires forall x :: x in rest ==> x.with != x.phi && exists a :: 0 <= a < n - 1 && x.phi in records[a].newPhis
    ensures Differ(first + rest)
    ensures forall x :: x in first + rest ==> x.with != x.phi && exists a :: 0 <= a < n && x.phi in records[a].newPhis
  {
    forall x, y | x in first && y in rest
      ensures x.phi != y.phi
    {
      var a :| 0 <= a < n - 1 && y.phi in records[a].newPhis;
    }
    BothDiffer(first, rest);
  }

  lemma {:induction false} RecordPhisDiffer(m: ValueMap, records: seq<PhiRecord>, r: PhiRecord, n: nat, i: nat)
    requires DistinctPhis(records) && n < |records| && r == records[n] && i <= |r.newPhis|
    requires forall k :: 0 <= k < |r.incoming| ==> r.incoming[k].1 in m && |m[r.incoming[k].1]| == |r.newPhis|
    ensures Differ(RecordReplacements(m, r, i))
    ensures forall x :: x in RecordReplacements(m, r, i) ==> x.with != x.phi && x.phi in r.newPhis
    decreases i
  {
    if i != 0 {
      RecordPhisDiffer(m, records, r, n, i - 1);
      var init := RecordReplacements(m, r, i - 1);
      forall x | x in init
        ensures x.phi != r.newPhis[i - 1]
      {
        var j :| 0 <= j < i - 1 && r.newPhis[j] == x.phi;
      }
      RecordNext(m, r, i - 1);
      hide RecordReplacements;
      var s := RecordReplacements(m, r, i);
      if s != init {
        BothDiffer(init, s[|init|..]);
        assert s == init + s[|init|..];
        hide Differ;
      }
    }
  }

  /** After finishing the phis, a phi that has been replaced is still mentioned by a mapping exactly if a later replacement has put
      it in again. */
  lemma FinishedExactly(m: ValueMap, records: seq<PhiRecord>, i: nat)
    requires Consistent(m, records) && i < |AllReplacements(m, records)|
    ensures var s := AllReplacements(m, records);
            Mentions(ReplacedAll(m, s), s[i].phi) <==> exists j :: i < j < |s| && Reintroduced(m, s, s[i].phi, j)
  {
    assert records[..|records|] == records;
    ReplacedPhisDiffer(m, records, |records|);
    hide AllReplacements;
    hide Reintroduced;
    RemainsExactly(m, AllReplacements(m, records), i);
  }

  /** In an unreachable block, the two components of one phi may come in as each other.  Then each is replaced by the other, both are
      erased, and the mapping still mentions one of them. */
  method UnreachableCycle(ghost c: Context, b: Block, phi: Value, x: Value, v: Value, w: Value) returns (t: TypeLowering)
    requires v != w && phi != x
    ensures t.instructionsToErase == [v, w]
    ensures t.valueMap == map[phi := [v, v], x := [v, v]] && Mentions(t.valueMap, v)
  {
    hide *;
    t := new TypeLowering;
    var r, m, operands := PhiRecord(phi, [(b, x)], [v, w]), map[phi := [v, w], x := [w, v]], map[v := [], w := []];
    t.valueMap, t.operands, t.phis, t.instructionsToErase := m, operands, [r], [];
    CycleFinishes(r, m, operands, b, x, v, w);
    ghost var replacements := t.FinishPhis(c);
    assert |replacements| == 2 && t.instructionsToErase == [replacements[0].phi, replacements[1].phi];
  }

  lemma CycleFinishes(r: PhiRecord, m: ValueMap, operands: ValueMap, b: Block, x: Value, v: Value, w: Value)
    requires r.newPhis == [v, w] && r.incoming == [(b, x)] && v != w && r.phi != x
    requires m == map[r.phi := [v, w], x := [w, v]] && operands == map[v := [], w := []]
    ensures Startable(m, operands, [r])
    ensures var s := AllReplacements(m, [r]);
            var finished := map[r.phi := [v, v], x := [v, v]];
            s == [Replacement(v, {}, w), Replacement(w, {}, v)] && ReplacedAll(m, s) == finished && Mentions(finished, v)
  {
    CycleReplacements(r, m, b, x, v, w);
    CycleReplaced(r.phi, x, v, w);
    CycleStartable(r, m, operands);
    MentionedIn(map[r.phi := [v, v], x := [v, v]], x, v);
    hide *;
  }

  lemma MentionedIn(m: ValueMap, k: Value, v: Value)
    requires k in m && v in m[k]
    ensures Mentions(m, v)
  {
  }

  lemma CycleStartable(r: PhiRecord, m: ValueMap, operands: ValueMap)
    requires Consistent(m, [r]) && forall v :: v in r.newPhis ==> v in operands && operands[v] == []
    ensures Startable(m, operands, [r])
  {
  }

  lemma CycleReplaced(phi: Value, x: Value, v: Value, w: Value)
    requires v != w && phi != x
    ensures ReplacedAll(map[phi := [v, w], x := [w, v]], [Replacement(v, {}, w), Replacement(w, {}, v)]) ==
            map[phi := [v, v], x := [v, v]]
  {
    var m := map[phi := [v, w], x := [w, v]];
    var first, second := Replacement(v, {}, w), Replacement(w, {}, v);
    assert Substituted([v, w], v, w) == [w, w] && Substituted([w, v], v, w) == [w, w] && Substituted([w, w], w, v) == [v, v];
    assert SubstitutedAll(m, v, w) == map[phi := [w, w], x := [w, w]];
    ReplacedNext(m, [], first);
    ReplacedNext(m, [first], second);
    assert [] + [first] == [first] && [first] + [second] == [first, second];
  }

  lemma CycleReplacements(r: PhiRecord, m: ValueMap, b: Block, x: Value, v: Value, w: Value)
    requires r.newPhis == [v, w] && r.incoming == [(b, x)] && v != w && r.phi != x
    requires m == map[r.phi := [v, w], x := [w, v]]
    ensures Consistent(m, [r])
    ensures AllReplacements(m, [r]) == [Replacement(v, {}, w), Replacement(w, {}, v)]
  {
    var first, second := Replacement(v, {}, w), Replacement(w, {}, v);
    assert Consistent(m, [r]);
    CycleAccumulated(r, m, b, x, v, w);
    hide Accumulated;
    hide Component;
    hide SelfBlocks;
    RecordStart(m, r);
    RecordNext(m, r, 0);
    RecordNext(m, r, 1);
    assert RecordReplacements(m, r, 1) == [first] && RecordReplacements(m, r, 2) == [first, second];
    hide RecordReplacements;
    assert [r][..1] == [r] && [r][..0] == [];
    AllNext(m, [r], 0);
    assert AllReplacements(ReplacedAll(m, [first, second]), []) == [];
    hide AllReplacements;
    hide Consistent;
  }

  lemma CycleAccumulated(r: PhiRecord, m: ValueMap, b: Block, x: Value, v: Value, w: Value)
    requires r.newPhis == [v, w] && r.incoming == [(b, x)] && v != w && r.phi != x
    requires m == map[r.phi := [v, w], x := [w, v]]
    ensures Accumulated(v, Component(m, r, 0)) == Only(w) && Accumulated(w, Component(m, r, 1)) == Only(v)
    ensures SelfBlocks(m, r, 0) == {} && SelfBlocks(m, r, 1) == {}
  {
    assert Component(m, r, 0) == [w] && Component(m, r, 1) == [v];
    assert [w][..0] == [] && [v][..0] == [];
  }
}
