/**
 * Value-level rules of the crossword constraint problem: the puzzle's
 * variables and overlaps, arc consistency over a map from variables to word
 * sets, the count behind the least-constraining-value order, Python's string
 * order, and the index arithmetic of variable selection.
 */
module CrosswordRules {
  import opened Wrappers
  import opened Lists

  datatype Direction = Across | Down

  /** A slot of the puzzle: its first cell, its direction and its length. */
  datatype Variable = Variable(i: int, j: int, direction: Direction, length: nat)

  type Arc = (Variable, Variable)

  /**
   * The puzzle as the solver sees it: `overlaps[(x, y)]` is the pair
   * (index in x's word, index in y's word) of the shared cell, or None.
   */
  datatype Puzzle = Puzzle(height: nat, width: nat, variables: set<Variable>,
                           overlaps: map<Arc, Option<(nat, nat)>>, words: set<string>)

  function Swap(o: Option<(nat, nat)>): Option<(nat, nat)> {
    match o
    case None => None
    case Some(p) => Some((p.1, p.0))
  }

  /**
   * The shape of puzzle the solver relies on: overlap entries only for
   * ordered pairs of distinct variables, entries that agree when read from
   * either side, and indices inside both words.
   */
  ghost predicate WellFormed(p: Puzzle) {
    (forall x, y | (x, y) in p.overlaps :: x in p.variables && y in p.variables && x != y) &&
    (forall x, y | (x, y) in p.overlaps :: (y, x) in p.overlaps && p.overlaps[(y, x)] == Swap(p.overlaps[(x, y)])) &&
    (forall x, y | (x, y) in p.overlaps && p.overlaps[(x, y)].Some? ::
       p.overlaps[(x, y)].value.0 < x.length && p.overlaps[(x, y)].value.1 < y.length)
  }

  /** The variables sharing a cell with x. */
  function Neighbors(p: Puzzle, x: Variable): set<Variable> {
    set y | y in p.variables && (x, y) in p.overlaps && p.overlaps[(x, y)].Some?
  }

  /** The ordered pairs of variables that share a cell. */
  function Arcs(p: Puzzle): set<Arc> {
    set a | a in p.overlaps && p.overlaps[a].Some?
  }

  lemma NeighborArc(p: Puzzle, x: Variable, z: Variable)
    requires WellFormed(p) && z in Neighbors(p, x)
    ensures (z, x) in Arcs(p) && (x, z) in Arcs(p) && z != x
  {
    assert (x, z) in p.overlaps;
    assert p.overlaps[(z, x)] == Swap(p.overlaps[(x, z)]);
  }

  lemma NeighborOfArc(p: Puzzle, u: Variable, x: Variable)
    requires WellFormed(p) && (u, x) in Arcs(p)
    ensures u in Neighbors(p, x)
  {
    assert p.overlaps[(x, u)] == Swap(p.overlaps[(u, x)]);
  }

  /** w (in x) and v (in y) meet at a shared cell and carry the same letter there. */
  predicate Agree(p: Puzzle, x: Variable, w: string, y: Variable, v: string) {
    (x, y) in p.overlaps && p.overlaps[(x, y)].Some? &&
    var o := p.overlaps[(x, y)].value;
    o.0 < |w| && o.1 < |v| && w[o.0] == v[o.1]
  }

  /** w (in x) and v (in y) meet at a shared cell and carry different letters there. */
  predicate Clash(p: Puzzle, x: Variable, w: string, y: Variable, v: string) {
    (x, y) in p.overlaps && p.overlaps[(x, y)].Some? &&
    var o := p.overlaps[(x, y)].value;
    o.0 < |w| && o.1 < |v| && w[o.0] != v[o.1]
  }

  /** Agreement does not depend on which of the two variables is named first. */
  lemma AgreeSymmetric(p: Puzzle, x: Variable, w: string, y: Variable, v: string)
    requires WellFormed(p) && (x, y) in p.overlaps
    ensures Agree(p, x, w, y, v) <==> Agree(p, y, v, x, w)
  {
    assert p.overlaps[(y, x)] == Swap(p.overlaps[(x, y)]);
  }

  // ---------------------------------------------------------------------
  // Domains as values
  // ---------------------------------------------------------------------

  type Domains = map<Variable, set<string>>

  /** Every word in a variable's domain has the variable's length. */
  ghost predicate NodeConsistent(dom: Domains) {
    forall v | v in dom :: forall w | w in dom[v] :: |w| == v.length
  }

  /** The words of a domain that fit their variable's length. */
  function FitLength(v: Variable, words: set<string>): (r: set<string>)
    ensures forall w :: w in r <==> w in words && |w| == v.length
  {
    set w | w in words && |w| == v.length
  }

  /** Every (variable, word) pair still possible; it shrinks as domains do. */
  function Pairs(dom: Domains): set<(Variable, string)> {
    set v, w | v in dom && w in dom[v] :: (v, w)
  }

  lemma PairsShrink(dom: Domains, x: Variable, d: set<string>)
    requires x in dom && d < dom[x]
    ensures Pairs(dom[x := d]) < Pairs(dom)
  {
    var w :| w in dom[x] && w !in d;
    assert (x, w) in Pairs(dom) && (x, w) !in Pairs(dom[x := d]);
  }

  /** Every word left for x has a partner for y, when x and y share a cell. */
  ghost predicate ArcConsistent(p: Puzzle, dom: Domains, x: Variable, y: Variable) {
    x in dom && y in dom && (x, y) in p.overlaps && p.overlaps[(x, y)].Some? ==>
      forall w | w in dom[x] :: exists v | v in dom[y] :: Agree(p, x, w, y, v)
  }

  /** Every arc of the puzzle is consistent. */
  ghost predicate AllArcConsistent(p: Puzzle, dom: Domains) {
    forall a | a in Arcs(p) :: ArcConsistent(p, dom, a.0, a.1)
  }

  /** Every arc is consistent or still waiting in the queue. */
  ghost predicate PendingOk(p: Puzzle, dom: Domains, queue: seq<Arc>) {
    forall a | a in Arcs(p) :: a in queue || ArcConsistent(p, dom, a.0, a.1)
  }

  /** x's domain after revising x against y: the words with a partner in y's domain. */
  function Revised(p: Puzzle, dom: Domains, x: Variable, y: Variable): set<string>
    requires x in dom && y in dom
  {
    if (x, y) in p.overlaps && p.overlaps[(x, y)].Some? then
      set w | w in dom[x] && exists v | v in dom[y] :: Agree(p, x, w, y, v)
    else
      dom[x]
  }

  /** Revision only removes words, makes the arc consistent, and does nothing without an overlap. */
  lemma RevisedFacts(p: Puzzle, dom: Domains, x: Variable, y: Variable)
    requires x in dom && y in dom && x != y
    ensures Revised(p, dom, x, y) <= dom[x]
    ensures ArcConsistent(p, dom[x := Revised(p, dom, x, y)], x, y)
    ensures ArcConsistent(p, dom, x, y) <==> Revised(p, dom, x, y) == dom[x]
    ensures (x, y) !in p.overlaps || p.overlaps[(x, y)].None? ==> Revised(p, dom, x, y) == dom[x]
  {
    var r := Revised(p, dom, x, y);
    if ArcConsistent(p, dom, x, y) {
      assert r == dom[x];
    }
    if r == dom[x] {
      assert ArcConsistent(p, dom, x, y);
    }
  }

  /**
   * Revising x against y cannot break the reverse arc (y, x): a word of x
   * that supported some word of y had a partner in y and so was kept.
   */
  lemma RevisedKeepsReverse(p: Puzzle, dom: Domains, x: Variable, y: Variable)
    requires WellFormed(p) && x in dom && y in dom && x != y && (x, y) in p.overlaps
    requires ArcConsistent(p, dom, y, x)
    ensures ArcConsistent(p, dom[x := Revised(p, dom, x, y)], y, x)
  {
    var dom' := dom[x := Revised(p, dom, x, y)];
    if p.overlaps[(y, x)].Some? {
      assert p.overlaps[(y, x)] == Swap(p.overlaps[(x, y)]);
      forall v | v in dom'[y] ensures exists w | w in dom'[x] :: Agree(p, y, v, x, w) {
        var w :| w in dom[x] && Agree(p, y, v, x, w);
        AgreeSymmetric(p, x, w, y, v);
        assert w in dom'[x];
      }
    }
  }

  /**
   * Revising x against y keeps every other consistent arc consistent,
   * except possibly an arc (u, x) into x from a variable u other than y.
   */
  lemma OtherArcAfterRevise(p: Puzzle, dom: Domains, x: Variable, y: Variable, u: Variable, v: Variable)
    requires WellFormed(p) && x in dom && y in dom && (x, y) in p.overlaps
    requires ArcConsistent(p, dom, u, v) && (u, v) != (x, y) && (v != x || u == y)
    ensures ArcConsistent(p, dom[x := Revised(p, dom, x, y)], u, v)
  {
    var dom' := dom[x := Revised(p, dom, x, y)];
    RevisedFacts(p, dom, x, y);
    if u in dom && v in dom {
      if v == x {
        RevisedKeepsReverse(p, dom, x, y);
      } else if u == x {
        assert dom'[v] == dom[v];
      } else {
        assert dom'[u] == dom[u] && dom'[v] == dom[v];
      }
    }
  }

  /**
   * One step of AC-3 keeps "consistent or pending": the popped arc is now
   * consistent, and when x's domain shrank every arc into x that might have
   * broken, other than the one from y, has been queued again.
   */
  lemma ReviseStep(p: Puzzle, dom: Domains, x: Variable, y: Variable, rest: seq<Arc>, queue: seq<Arc>)
    requires WellFormed(p) && x in dom && y in dom && (x, y) in p.overlaps
    requires PendingOk(p, dom, [(x, y)] + rest)
    requires forall a | a in rest :: a in queue
    requires Revised(p, dom, x, y) == dom[x] || forall z | z in Neighbors(p, x) - {y} :: (z, x) in queue
    ensures PendingOk(p, dom[x := Revised(p, dom, x, y)], queue)
  {
    var dom' := dom[x := Revised(p, dom, x, y)];
    RevisedFacts(p, dom, x, y);
    forall a | a in Arcs(p) && a !in queue ensures ArcConsistent(p, dom', a.0, a.1) {
      if a != (x, y) && dom' != dom {
        assert a !in rest;
        if a.1 == x {
          NeighborOfArc(p, a.0, x);
        }
        OtherArcAfterRevise(p, dom, x, y, a.0, a.1);
      }
    }
  }

  // ---------------------------------------------------------------------
  // Assignments
  // ---------------------------------------------------------------------

  type Assignment = map<Variable, string>

  /** `assignment` agrees with `base` on every variable `base` assigns. */
  predicate Extends(assignment: Assignment, base: Assignment) {
    forall v | v in base :: v in assignment && assignment[v] == base[v]
  }

  /** No two variables hold the same word. */
  predicate Distinct(a: Assignment) {
    forall u, v | u in a && v in a && u != v :: a[u] != a[v]
  }

  /**
   * A map has as many distinct values as keys exactly when no two keys
   * share a value: the uniqueness test by counting is a test of injectivity.
   */
  lemma {:induction false} ValuesCount(a: Assignment)
    ensures |a.Values| <= |a.Keys|
    ensures |a.Values| == |a.Keys| <==> Distinct(a)
    decreases |a.Keys|
  {
    if a.Keys != {} {
      var k :| k in a.Keys;
      var b := a - {k};
      ValuesCount(b);
      assert a.Keys == b.Keys + {k};
      assert a.Values == b.Values + {a[k]} by {
        forall w | w in a.Values ensures w in b.Values + {a[k]} {
          var u :| u in a && a[u] == w;
          if u != k { assert u in b; }
        }
      }
      if a[k] in b.Values {
        var u :| u in b && b[u] == a[k];
        assert !Distinct(a);
      } else {
        if Distinct(a) {
          assert Distinct(b);
        } else {
          var u, v :| u in a && v in a && u != v && a[u] == a[v];
          assert u != k && v != k;
          assert !Distinct(b);
        }
      }
    }
  }

  /**
   * The constraints of the puzzle on an assignment: every word has its
   * variable's length, assigned neighbours do not clash at their shared
   * cell, and no word is used twice.
   */
  predicate Satisfies(p: Puzzle, a: Assignment) {
    (forall v | v in a :: |a[v]| == v.length) &&
    (forall v, z | v in a && z in a && z in Neighbors(p, v) :: !Clash(p, v, a[v], z, a[z])) &&
    Distinct(a)
  }

  /** Part of an assignment that meets the constraints meets them too. */
  lemma SatisfiesPart(p: Puzzle, a: Assignment, b: Assignment)
    requires Satisfies(p, a) && Extends(a, b)
    ensures Satisfies(p, b)
  {
    forall u, v | u in b && v in b && u != v ensures b[u] != b[v] {
      assert a[u] != a[v];
    }
  }

  // ---------------------------------------------------------------------
  // Solutions
  // ---------------------------------------------------------------------

  /** A solution drawn from the domains: every variable has a word of its domain, and the constraints hold. */
  ghost predicate Solution(p: Puzzle, dom: Domains, a: Assignment) {
    a.Keys == p.variables && Satisfies(p, a) && forall v | v in a :: v in dom && a[v] in dom[v]
  }

  /** Every solution drawn from d0 is still drawn from d1: no word any solution uses was lost. */
  ghost predicate KeepsSolutions(p: Puzzle, d0: Domains, d1: Domains) {
    forall a | Solution(p, d0, a) :: Solution(p, d1, a)
  }

  /** No solution drawn from the domains extends `base`. */
  ghost predicate NoSolutionExtending(p: Puzzle, dom: Domains, base: Assignment) {
    forall a | Solution(p, dom, a) :: !Extends(a, base)
  }

  /** No solution can be drawn from the domains. */
  ghost predicate NoSolution(p: Puzzle, dom: Domains) {
    forall a :: !Solution(p, dom, a)
  }

  /** A solution's word for x survives the revision of x against y: its word for y supports it. */
  lemma SolutionSupported(p: Puzzle, dom: Domains, x: Variable, y: Variable, a: Assignment)
    requires WellFormed(p) && x in dom && y in dom && (x, y) in p.overlaps && Solution(p, dom, a)
    ensures x in a && a[x] in Revised(p, dom, x, y)
  {
    if p.overlaps[(x, y)].Some? {
      assert y in Neighbors(p, x) && x in a && y in a;
      assert Agree(p, x, a[x], y, a[y]);
    }
  }

  /**
   * Arc-consistency soundness: revising x against y removes only words that
   * no solution uses.
   */
  lemma RevisedKeepsSolutions(p: Puzzle, dom: Domains, x: Variable, y: Variable)
    requires WellFormed(p) && x in dom && y in dom && (x, y) in p.overlaps
    ensures KeepsSolutions(p, dom, dom[x := Revised(p, dom, x, y)])
  {
    var r := Revised(p, dom, x, y);
    forall a | Solution(p, dom, a) ensures Solution(p, dom[x := r], a) {
      SolutionSupported(p, dom, x, y, a);
      SolutionNarrowed(p, dom, x, r, a);
    }
  }

  /** Narrowing one domain to a set that still holds the solution's word keeps the solution. */
  lemma SolutionNarrowed(p: Puzzle, dom: Domains, x: Variable, d: set<string>, a: Assignment)
    requires Solution(p, dom, a) && x in a && a[x] in d
    ensures Solution(p, dom[x := d], a)
  {
  }

  /** Node consistency removes only words that no solution uses. */
  lemma FitLengthKeepsSolutions(p: Puzzle, dom: Domains)
    ensures KeepsSolutions(p, dom, map v | v in dom :: FitLength(v, dom[v]))
  {
  }

  lemma {:induction false} KeepsTransitive(p: Puzzle, d0: Domains, d1: Domains, d2: Domains)
    requires KeepsSolutions(p, d0, d1) && KeepsSolutions(p, d1, d2)
    ensures KeepsSolutions(p, d0, d2)
  {
    forall a | Solution(p, d0, a) ensures Solution(p, d2, a) {
      assert Solution(p, d1, a);
    }
  }

  /**
   * When domains that kept every solution of d0 have an empty domain, d0
   * had no solution: AC-3's False means the puzzle cannot be filled.
   */
  lemma EmptiedNoSolution(p: Puzzle, d0: Domains, d1: Domains)
    requires KeepsSolutions(p, d0, d1) && d1.Keys == p.variables
    requires exists v | v in d1 :: d1[v] == {}
    ensures NoSolution(p, d0)
  {
  }

  /** Nothing that extends an assignment violating the constraints is a solution. */
  lemma UnsatisfiedNoSolution(p: Puzzle, dom: Domains, base: Assignment)
    requires !Satisfies(p, base)
    ensures NoSolutionExtending(p, dom, base)
  {
    forall a | Solution(p, dom, a) ensures !Extends(a, base) {
      if Extends(a, base) {
        SatisfiesPart(p, a, base);
      }
    }
  }

  /** A search that failed on narrowed domains which kept every solution failed on the wider ones. */
  lemma KeepsNoSolution(p: Puzzle, d0: Domains, d1: Domains, base: Assignment)
    requires KeepsSolutions(p, d0, d1) && NoSolutionExtending(p, d1, base)
    ensures NoSolutionExtending(p, d0, base)
  {
    forall a | Solution(p, d0, a) ensures !Extends(a, base) {
      assert Solution(p, d1, a);
    }
  }

  /** No solution drawn from the domains that extends `base` gives x one of the tried values. */
  ghost predicate NoneTried(p: Puzzle, dom: Domains, base: Assignment, x: Variable, tried: set<string>) {
    forall a | Solution(p, dom, a) && Extends(a, base) && x in a :: a[x] !in tried
  }

  /**
   * One more value tried and failed: no solution extending `base` gives x
   * any value tried so far.
   */
  lemma TriedValue(p: Puzzle, d0: Domains, d1: Domains, base: Assignment, x: Variable,
                   tried: set<string>, value: string)
    requires x in p.variables && KeepsSolutions(p, d0, d1)
    requires NoSolutionExtending(p, d1, base[x := value])
    requires NoneTried(p, d0, base, x, tried)
    ensures NoneTried(p, d0, base, x, tried + {value})
  {
    forall a | Solution(p, d0, a) && Extends(a, base) ensures x in a && a[x] !in tried + {value} {
      assert Solution(p, d1, a);
    }
  }

  /** Once every value of x's domain has failed, no solution extends `base`. */
  lemma AllTried(p: Puzzle, dom: Domains, base: Assignment, x: Variable, values: seq<string>, tried: set<string>)
    requires x in p.variables && x in dom && forall w :: w in values <==> w in dom[x]
    requires forall i | 0 <= i < |values| :: values[i] in tried
    requires NoneTried(p, dom, base, x, tried)
    ensures NoSolutionExtending(p, dom, base)
  {
    forall a | Solution(p, dom, a) ensures !Extends(a, base) {
      assert a[x] in values;
    }
  }

  /** The cell holding letter k of variable v's word. */
  function Cell(v: Variable, k: int): (int, int) {
    (v.i + (if v.direction == Down then k else 0), v.j + (if v.direction == Across then k else 0))
  }

  // ---------------------------------------------------------------------
  // Least constraining value
  // ---------------------------------------------------------------------

  /**
   * The (neighbour, word) pairs that choosing `value` for x would rule out:
   * a word in the domain of an unassigned neighbour that clashes with
   * `value` at their shared cell.
   */
  function RuledOut(p: Puzzle, dom: Domains, x: Variable, value: string, chosen: set<Variable>): set<(Variable, string)> {
    set z, v | z in Neighbors(p, x) && z !in chosen && z in dom && v in dom[z] && Clash(p, x, value, z, v) :: (z, v)
  }

  /** Python's order on strings: by code point, a proper prefix first. */
  predicate StrLt(a: string, b: string)
    decreases |a|
  {
    |b| > 0 && (|a| == 0 || a[0] < b[0] || (a[0] == b[0] && StrLt(a[1..], b[1..])))
  }

  lemma {:induction false} StrLtIrreflexive(a: string)
    ensures !StrLt(a, a)
    decreases |a|
  {
    if |a| > 0 {
      StrLtIrreflexive(a[1..]);
    }
  }

  lemma {:induction false} StrLtTransitive(a: string, b: string, c: string)
    requires StrLt(a, b) && StrLt(b, c)
    ensures StrLt(a, c)
    decreases |a|
  {
    if |a| > 0 && a[0] == b[0] && b[0] == c[0] {
      StrLtTransitive(a[1..], b[1..], c[1..]);
    }
  }

  lemma {:induction false} StrLtTotal(a: string, b: string)
    requires a != b
    ensures StrLt(a, b) || StrLt(b, a)
    decreases |a|
  {
    if |a| > 0 && |b| > 0 && a[0] == b[0] {
      assert a == [a[0]] + a[1..] && b == [b[0]] + b[1..];
      StrLtTotal(a[1..], b[1..]);
    }
  }

  /** The order Python's `sorted` puts (count, word) pairs in. */
  predicate EntryLt(e: (nat, string), f: (nat, string)) {
    e.0 < f.0 || (e.0 == f.0 && StrLt(e.1, f.1))
  }

  lemma EntryLtOrder(e: (nat, string), f: (nat, string), g: (nat, string))
    ensures !EntryLt(e, e)
    ensures EntryLt(e, f) && EntryLt(f, g) ==> EntryLt(e, g)
    ensures e.1 != f.1 ==> EntryLt(e, f) || EntryLt(f, e)
  {
    StrLtIrreflexive(e.1);
    if EntryLt(e, f) && EntryLt(f, g) && e.0 == f.0 == g.0 {
      StrLtTransitive(e.1, f.1, g.1);
    }
    if e.1 != f.1 {
      StrLtTotal(e.1, f.1);
    }
  }

  predicate SortedEntries(s: seq<(nat, string)>) {
    forall i, j | 0 <= i < j < |s| :: EntryLt(s[i], s[j])
  }

  /** No word appears in two entries. */
  predicate DistinctWords(s: seq<(nat, string)>) {
    forall i, j | 0 <= i < j < |s| :: s[i].1 != s[j].1
  }

  /** A sequence's multiset is its head's plus its tail's. */
  lemma MultisetCons(s: seq<(nat, string)>)
    requires |s| > 0
    ensures multiset(s) == multiset{s[0]} + multiset(s[1..])
  {
    assert s == [s[0]] + s[1..];
  }

  /** Anything with the entries of a sorted tail (and e) follows the head. */
  lemma SortedHead(s: seq<(nat, string)>, e: (nat, string), t: seq<(nat, string)>)
    requires SortedEntries(s) && |s| > 0 && EntryLt(s[0], e)
    requires multiset(t) == multiset(s[1..]) + multiset{e}
    ensures forall f | f in t :: EntryLt(s[0], f)
  {
    forall f | f in t ensures EntryLt(s[0], f) {
      assert f in multiset(t);
      if f != e {
        assert f in multiset(s[1..]);
        var k :| 0 <= k < |s[1..]| && s[1..][k] == f;
        assert s[k + 1] == f;
      }
    }
  }

  /** Anything with the entries of a tail of distinct words avoids the head's word. */
  lemma DistinctHead(s: seq<(nat, string)>, t: seq<(nat, string)>)
    requires DistinctWords(s) && |s| > 0
    requires multiset(t) == multiset(s[1..])
    ensures forall f | f in t :: f.1 != s[0].1
  {
    forall f | f in t ensures f.1 != s[0].1 {
      assert f in multiset(t);
      var k :| 0 <= k < |s[1..]| && s[1..][k] == f;
      assert s[k + 1] == f;
    }
  }

  /** An entry before everything of a sorted sequence starts a sorted sequence. */
  lemma ConsSorted(x: (nat, string), t: seq<(nat, string)>)
    requires SortedEntries(t) && forall f | f in t :: EntryLt(x, f)
    ensures SortedEntries([x] + t)
  {
    forall i, j | 0 <= i < j < |[x] + t| ensures EntryLt(([x] + t)[i], ([x] + t)[j]) {
      if i == 0 {
        assert ([x] + t)[j] == t[j - 1];
      } else {
        assert ([x] + t)[i] == t[i - 1] && ([x] + t)[j] == t[j - 1];
      }
    }
  }

  /** Places e among sorted entries whose words all differ from e's. */
  function InsertEntry(e: (nat, string), s: seq<(nat, string)>): (r: seq<(nat, string)>)
    requires SortedEntries(s) && forall f | f in s :: f.1 != e.1
    ensures multiset(r) == multiset(s) + multiset{e}
    ensures SortedEntries(r)
  {
    if s == [] then [e]
    else if EntryLt(e, s[0]) then
      assert forall f | f in s :: EntryLt(e, f) by {
        forall f | f in s ensures EntryLt(e, f) {
          EntryLtOrder(e, s[0], f);
        }
      }
      ConsSorted(e, s);
      [e] + s
    else
      var t := InsertEntry(e, s[1..]);
      EntryLtOrder(s[0], e, e);
      SortedHead(s, e, t);
      ConsSorted(s[0], t);
      MultisetCons(s);
      [s[0]] + t
  }

  /** `sorted` on entries with distinct words. */
  function SortEntries(s: seq<(nat, string)>): (r: seq<(nat, string)>)
    requires DistinctWords(s)
    ensures multiset(r) == multiset(s)
    ensures SortedEntries(r)
  {
    if s == [] then []
    else
      var t := SortEntries(s[1..]);
      DistinctHead(s, t);
      MultisetCons(s);
      InsertEntry(s[0], t)
  }

  /** The words of the entries, in order. */
  function WordsOf(s: seq<(nat, string)>): (r: seq<string>)
    ensures |r| == |s| && forall i | 0 <= i < |s| :: r[i] == s[i].1
  {
    seq(|s|, i requires 0 <= i < |s| => s[i].1)
  }

  /**
   * Sorting entries with distinct words keeps exactly the same entries, so
   * the sorted words are again distinct.
   */
  lemma SortedWords(s: seq<(nat, string)>)
    requires DistinctWords(s)
    ensures |SortEntries(s)| == |s|
    ensures forall e | e in SortEntries(s) :: e in s
    ensures forall e | e in s :: e in SortEntries(s)
    ensures DistinctWords(SortEntries(s))
  {
    var r := SortEntries(s);
    assert |r| == |multiset(r)| == |multiset(s)| == |s|;
    forall e | e in r ensures e in s {
      assert e in multiset(r);
    }
    forall e | e in s ensures e in r {
      assert e in multiset(s);
    }
    forall i, j | 0 <= i < j < |r| ensures r[i].1 != r[j].1 {
      if r[i].1 == r[j].1 {
        assert r[i] in r && r[j] in r;
        var a :| 0 <= a < |s| && s[a] == r[i];
        var b :| 0 <= b < |s| && s[b] == r[j];
        assert a == b;
        EntryLtOrder(r[i], r[j], r[j]);
        assert false;
      }
    }
  }

  /** Sequences holding the same entries hold the same words. */
  lemma SameWords(r: seq<(nat, string)>, s: seq<(nat, string)>)
    requires forall e | e in r :: e in s
    requires forall e | e in s :: e in r
    ensures forall w :: w in WordsOf(r) <==> w in WordsOf(s)
  {
    var wr, ws := WordsOf(r), WordsOf(s);
    forall w | w in wr ensures w in ws {
      var i :| 0 <= i < |r| && wr[i] == w;
      assert r[i] in s;
      var k :| 0 <= k < |s| && s[k] == r[i];
      assert ws[k] == w;
    }
    forall w | w in ws ensures w in wr {
      var k :| 0 <= k < |s| && ws[k] == w;
      assert s[k] in r;
      var i :| 0 <= i < |r| && r[i] == s[k];
      assert wr[i] == w;
    }
  }


  // ---------------------------------------------------------------------
  // Variable selection by index
  // ---------------------------------------------------------------------

  /** Python's `list.index`: the first position holding x. */
  function IndexOf(s: seq<int>, x: int): (r: nat)
    requires x in s
    ensures r < |s| && s[r] == x && forall i | 0 <= i < r :: s[i] != x
  {
    if s[0] == x then 0
    else
      assert x in s[1..] by { var k :| 0 <= k < |s| && s[k] == x; assert s[1..][k - 1] == x; }
      1 + IndexOf(s[1..], x)
  }

  /** The degrees of the variables whose MRV is m, in list order. */
  function TiedDegrees(mrv: seq<int>, degree: seq<int>, m: int): (r: seq<int>)
    requires |mrv| == |degree|
    ensures forall i | 0 <= i < |mrv| && mrv[i] == m :: degree[i] in r
    ensures forall d | d in r :: exists i | 0 <= i < |mrv| :: mrv[i] == m && degree[i] == d
  {
    if mrv == [] then []
    else
      var t := TiedDegrees(mrv[1..], degree[1..], m);
      assert forall d | d in t :: exists i | 0 <= i < |mrv| :: mrv[i] == m && degree[i] == d by {
        forall d | d in t ensures exists i | 0 <= i < |mrv| :: mrv[i] == m && degree[i] == d {
          var i :| 0 <= i < |mrv[1..]| && mrv[1..][i] == m && degree[1..][i] == d;
          assert mrv[i + 1] == m && degree[i + 1] == d;
        }
      }
      assert forall i | 1 <= i < |mrv| && mrv[i] == m :: degree[i] in t by {
        forall i | 1 <= i < |mrv| && mrv[i] == m ensures degree[i] in t {
          assert mrv[1..][i - 1] == m && degree[1..][i - 1] == degree[i];
        }
      }
      if mrv[0] == m then [degree[0]] + t else t
  }

  /**
   * The choice of `select_unassigned_variable` as written: on a tie for the
   * minimum MRV it returns the first variable, among all of them, whose
   * degree equals the largest degree among the tied ones.
   */
  function SelectIndexAsWritten(mrv: seq<int>, degree: seq<int>): (r: nat)
    requires |mrv| == |degree| > 0
    ensures r < |mrv|
    ensures multiset(mrv)[Min(mrv)] == 1 ==> mrv[r] == Min(mrv)
  {
    var minVal := Min(mrv);
    if multiset(mrv)[minVal] > 1 then
      var tied := TiedDegrees(mrv, degree, minVal);
      assert degree[IndexOf(mrv, minVal)] in tied;
      var best := Max(tied);
      assert best in degree by { var i :| 0 <= i < |mrv| && mrv[i] == minVal && degree[i] == best; }
      IndexOf(degree, best)
    else
      IndexOf(mrv, minVal)
  }

  /** The tie-break picks a variable whose MRV is not the minimum. */
  lemma TieBreakCounterexample()
    ensures var mrv, degree := [2, 1, 1], [2, 1, 2];
            SelectIndexAsWritten(mrv, degree) == 0 && mrv[0] != Min(mrv)
  {
    var mrv, degree := [2, 1, 1], [2, 1, 2];
    assert Min(mrv[2..]) == 1 && Min(mrv[1..]) == 1;
    assert multiset(mrv)[1] == 2;
    assert TiedDegrees(mrv[2..], degree[2..], 1) == [2];
    assert TiedDegrees(mrv[1..], degree[1..], 1) == [1, 2];
    assert TiedDegrees(mrv, degree, 1) == [1, 2];
    assert Max([1, 2][1..]) == 2;
    assert Max([1, 2]) == 2;
  }

  /** The first position among those with MRV m whose degree is d. */
  function FirstTied(mrv: seq<int>, degree: seq<int>, m: int, d: int): (r: nat)
    requires |mrv| == |degree| && exists i | 0 <= i < |mrv| :: mrv[i] == m && degree[i] == d
    ensures r < |mrv| && mrv[r] == m && degree[r] == d
    ensures forall i | 0 <= i < r :: !(mrv[i] == m && degree[i] == d)
  {
    if mrv[0] == m && degree[0] == d then 0
    else
      assert exists i | 0 <= i < |mrv[1..]| :: mrv[1..][i] == m && degree[1..][i] == d by {
        var i :| 0 <= i < |mrv| && mrv[i] == m && degree[i] == d;
        assert mrv[1..][i - 1] == m && degree[1..][i - 1] == d;
      }
      1 + FirstTied(mrv[1..], degree[1..], m, d)
  }

  /**
   * The intended choice: among the variables with the minimum MRV, the first
   * with the largest degree.
   */
  function SelectIndex(mrv: seq<int>, degree: seq<int>): (r: nat)
    requires |mrv| == |degree| > 0
    ensures r < |mrv| && mrv[r] == Min(mrv)
    ensures forall i | 0 <= i < |mrv| && mrv[i] == Min(mrv) :: degree[i] <= degree[r]
  {
    var minVal := Min(mrv);
    var tied := TiedDegrees(mrv, degree, minVal);
    assert degree[IndexOf(mrv, minVal)] in tied;
    var best := Max(tied);
    FirstTied(mrv, degree, minVal, best)
  }

  /** With a single variable of minimum MRV, the intended and the written choice agree. */
  lemma SelectIndexAgreesWhenUnique(mrv: seq<int>, degree: seq<int>)
    requires |mrv| == |degree| > 0 && multiset(mrv)[Min(mrv)] == 1
    ensures SelectIndex(mrv, degree) == SelectIndexAsWritten(mrv, degree)
  {
    var a, b := SelectIndex(mrv, degree), SelectIndexAsWritten(mrv, degree);
    if a < b {
      TwoPositions(mrv, a, b);
    } else if b < a {
      TwoPositions(mrv, b, a);
    }
  }

  lemma TwoPositions(s: seq<int>, a: nat, b: nat)
    requires a < b < |s| && s[a] == s[b]
    ensures multiset(s)[s[a]] >= 2
  {
    assert s == s[..b] + [s[b]] + s[b + 1..];
    assert s[..b][a] == s[a];
    assert multiset(s[..b])[s[a]] >= 1;
  }
}
