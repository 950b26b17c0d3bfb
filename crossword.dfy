/**
 * The crossword generator: per-variable domains of words narrowed by node
 * consistency and AC-3, then a backtracking search that maintains arc
 * consistency. The domains are a map from variables to word sets that the
 * methods rewrite entry by entry.
 */
module Crossword {
  import opened Wrappers
  import opened CrosswordRules

  class CrosswordCreator {
    const puzzle: Puzzle
    var domains: Domains

    /** One domain per variable of a well-formed puzzle. */
    ghost predicate Valid()
      reads this
    {
      WellFormed(puzzle) && domains.Keys == puzzle.variables
    }

    /** The number of neighbouring values that `value` for x rules out. */
    ghost function Constraining(x: Variable, value: string, assignment: Assignment): nat
      reads this
    {
      |RuledOut(puzzle, domains, x, value, assignment.Keys)|
    }

    /** Every variable starts with the whole word list. */
    constructor (puzzle: Puzzle)
      requires WellFormed(puzzle)
      ensures Valid() && this.puzzle == puzzle
      ensures domains == map v | v in puzzle.variables :: puzzle.words
    {
      this.puzzle := puzzle;
      domains := map v | v in puzzle.variables :: puzzle.words;
    }

    /** Replaces each domain by the set of its words that have the variable's length. */
    method EnforceNodeConsistency()
      requires Valid()
      modifies this
      ensures Valid() && NodeConsistent(domains)
      ensures domains == map v | v in old(domains) :: FitLength(v, old(domains)[v])
    {
      var rest := puzzle.variables;
      while rest != {}
        invariant Valid() && rest <= puzzle.variables
        invariant forall v | v in domains ::
                    domains[v] == if v in rest then old(domains)[v] else FitLength(v, old(domains)[v])
        decreases rest
      {
        var v :| v in rest;
        var consistent: set<string> := {};
        var left := domains[v];
        while left != {}
          invariant left <= domains[v]
          invariant consistent == FitLength(v, domains[v] - left)
          decreases left
        {
          var w :| w in left;
          if v.length == |w| {
            consistent := consistent + {w};
          }
          left := left - {w};
        }
        domains := domains[v := consistent];
        rest := rest - {v};
      }
    }

    /**
     * Removes from x's domain every word with no partner in y's domain at
     * their shared cell; reports whether anything was removed.
     */
    method Revise(x: Variable, y: Variable) returns (changed: bool)
      requires Valid() && NodeConsistent(domains) && (x, y) in puzzle.overlaps
      modifies this
      ensures Valid() && NodeConsistent(domains)
      ensures domains == old(domains)[x := Revised(puzzle, old(domains), x, y)]
      ensures changed <==> domains[x] != old(domains)[x]
    {
      RevisedFacts(puzzle, domains, x, y);
      changed := false;
      var overlap := puzzle.overlaps[(x, y)];
      if overlap.Some? {
        var (i, j) := overlap.value;
        ghost var keep := Revised(puzzle, domains, x, y);
        var toRemove: set<string> := {};
        var left := domains[x];
        while left != {}
          invariant left <= domains[x]
          invariant forall w :: w in toRemove <==> w in domains[x] && w !in left && w !in keep
          invariant changed <==> toRemove != {}
          decreases left
        {
          var word :| word in left;
          if forall other | other in domains[y] :: word[i] != other[j] {
            assert word !in keep;
            changed := true;
            toRemove := toRemove + {word};
          } else {
            var other :| other in domains[y] && word[i] == other[j];
            assert Agree(puzzle, x, word, y, other);
          }
          left := left - {word};
        }
        var rem := toRemove;
        while rem != {}
          invariant rem <= toRemove && x in domains
          invariant domains == old(domains)[x := domains[x]]
          invariant domains[x] == old(domains)[x] - (toRemove - rem)
          decreases rem
        {
          var word :| word in rem;
          domains := domains[x := domains[x] - {word}];
          rem := rem - {word};
        }
        assert domains[x] == keep;
      }
    }

    /** Every ordered pair of variables that share a cell, in some order. */
    method InitialArcs() returns (arcs: seq<Arc>)
      ensures forall a :: a in arcs <==> a in Arcs(puzzle)
    {
      arcs := [];
      var keys := puzzle.overlaps.Keys;
      while keys != {}
        invariant keys <= puzzle.overlaps.Keys
        invariant forall a :: a in arcs <==> a in Arcs(puzzle) && a !in keys
        decreases keys
      {
        var key :| key in keys;
        if puzzle.overlaps[key].Some? {
          arcs := arcs + [key];
        }
        keys := keys - {key};
      }
    }

    /**
     * Appends the arc (z, x) for every neighbour z of x outside `skip`, in
     * some order.
     */
    method AppendArcsInto(queue: seq<Arc>, x: Variable, skip: set<Variable>) returns (r: seq<Arc>)
      requires WellFormed(puzzle)
      ensures |queue| <= |r| && r[..|queue|] == queue
      ensures forall a | a in queue :: a in r
      ensures forall z | z in Neighbors(puzzle, x) - skip :: (z, x) in r
      ensures forall k | |queue| <= k < |r| :: r[k].1 == x && r[k].0 in Neighbors(puzzle, x) - skip && r[k] in puzzle.overlaps
      ensures forall a | a in r :: a in queue || (a.1 == x && a.0 in Neighbors(puzzle, x) - skip && a in puzzle.overlaps)
    {
      r := queue;
      var neighbors := Neighbors(puzzle, x) - skip;
      while neighbors != {}
        invariant |queue| <= |r| && r[..|queue|] == queue
        invariant forall z | z in Neighbors(puzzle, x) - skip - neighbors :: (z, x) in r
        invariant forall k | |queue| <= k < |r| :: r[k].1 == x && r[k].0 in Neighbors(puzzle, x) - skip && r[k] in puzzle.overlaps
        decreases neighbors
      {
        var z :| z in neighbors;
        NeighborArc(puzzle, x, z);
        r := r + [(z, x)];
        neighbors := neighbors - {z};
      }
      forall a | a in queue ensures a in r {
        var k :| 0 <= k < |queue| && queue[k] == a;
        assert r[k] == a;
      }
      forall a | a in r
        ensures a in queue || (a.1 == x && a.0 in Neighbors(puzzle, x) - skip && a in puzzle.overlaps)
      {
        var k :| 0 <= k < |r| && r[k] == a;
        if k < |queue| {
          assert queue[k] == a;
        }
      }
    }

    /**
     * AC-3 over a queue popped from the front: after a revision that
     * removed words from x, every arc (z, x) from a neighbour z other than y
     * is queued again. Returns false as soon as a domain becomes empty.
     */
    method Ac3(arcs: Option<seq<Arc>>) returns (ok: bool)
      requires Valid() && NodeConsistent(domains)
      requires arcs.Some? ==> forall a | a in arcs.value :: a in puzzle.overlaps
      modifies this
      ensures Valid() && NodeConsistent(domains)
      ensures forall v | v in domains :: domains[v] <= old(domains)[v]
      ensures !ok ==> exists v | v in domains :: domains[v] == {}
      ensures ok && (arcs.None? || old(PendingOk(puzzle, domains, arcs.value))) ==> AllArcConsistent(puzzle, domains)
      ensures KeepsSolutions(puzzle, old(domains), domains)
      ensures !ok ==> NoSolution(puzzle, old(domains))
    {
      var queue: seq<Arc>;
      if arcs.None? {
        queue := InitialArcs();
        forall a | a in queue ensures a in puzzle.overlaps {
          assert a in Arcs(puzzle);
        }
      } else {
        queue := arcs.value;
      }
      ghost var hyp := PendingOk(puzzle, domains, queue);
      assert arcs.None? ==> hyp;
      while |queue| > 0
        invariant Valid() && NodeConsistent(domains)
        invariant forall v | v in domains :: domains[v] <= old(domains)[v]
        invariant forall a | a in queue :: a in puzzle.overlaps
        invariant hyp ==> PendingOk(puzzle, domains, queue)
        invariant KeepsSolutions(puzzle, old(domains), domains)
        decreases Pairs(domains), |queue|
      {
        ghost var before := domains;
        var (x, y) := queue[0];
        var emptied;
        queue, emptied := Ac3Step(queue, hyp);
        RevisedKeepsSolutions(puzzle, before, x, y);
        KeepsTransitive(puzzle, old(domains), before, domains);
        if emptied {
          EmptiedNoSolution(puzzle, old(domains), domains);
          return false;
        }
      }
      return true;
    }

    /**
     * One round of AC-3: pops the front arc (x, y) and revises x against y;
     * when that removed words, reports an emptied domain or queues (z, x)
     * for every neighbour z of x other than y. Either the set of possible
     * (variable, word) pairs shrinks or the queue does.
     */
    method Ac3Step(queue: seq<Arc>, ghost hyp: bool) returns (rest: seq<Arc>, emptied: bool)
      requires Valid() && NodeConsistent(domains) && |queue| > 0
      requires forall a | a in queue :: a in puzzle.overlaps
      requires hyp ==> PendingOk(puzzle, domains, queue)
      modifies this
      ensures Valid() && NodeConsistent(domains)
      ensures queue[0].0 in old(domains) && queue[0].1 in old(domains)
      ensures domains == old(domains)[queue[0].0 := Revised(puzzle, old(domains), queue[0].0, queue[0].1)]
      ensures forall v | v in domains :: domains[v] <= old(domains)[v]
      ensures emptied ==> exists v | v in domains :: domains[v] == {}
      ensures forall a | a in rest :: a in puzzle.overlaps
      ensures !emptied && hyp ==> PendingOk(puzzle, domains, rest)
      ensures Pairs(domains) < old(Pairs(domains)) || (domains == old(domains) && |rest| < |queue|)
    {
      var (x, y) := queue[0];
      rest := queue[1..];
      assert forall a | a in rest :: a in queue;
      var changed := Revise(x, y);
      RevisedFacts(puzzle, old(domains), x, y);
      emptied := false;
      if changed {
        PairsShrink(old(domains), x, domains[x]);
        if |domains[x]| == 0 {
          return rest, true;
        }
        ghost var tail := rest;
        rest := AppendArcsInto(rest, x, {y});
        if hyp {
          assert queue == [(x, y)] + tail;
          ReviseStep(puzzle, old(domains), x, y, tail, rest);
        }
      } else {
        assert domains == old(domains);
        if hyp {
          assert queue == [(x, y)] + rest;
          ReviseStep(puzzle, old(domains), x, y, rest, rest);
        }
      }
    }

    /** `assignment_complete`: no variable of the puzzle is missing from the assignment. */
    function AssignmentComplete(assignment: Assignment): (r: bool)
      ensures r <==> forall v | v in puzzle.variables :: v in assignment
      ensures assignment.Keys <= puzzle.variables ==> (r <==> assignment.Keys == puzzle.variables)
    {
      puzzle.variables <= assignment.Keys
    }

    /**
     * Every word has its variable's length, assigned neighbours agree at
     * their shared cell, and no word is used twice (tested by counting).
     */
    function Consistent(assignment: Assignment): (r: bool)
      ensures r <==> Satisfies(puzzle, assignment)
    {
      ValuesCount(assignment);
      (forall v | v in assignment :: |assignment[v]| == v.length) &&
      (forall v, z | v in assignment && z in assignment && z in Neighbors(puzzle, v) ::
         !Clash(puzzle, v, assignment[v], z, assignment[z])) &&
      |assignment.Values| == |assignment.Keys|
    }

    /** The number of values ruled out in unassigned neighbours by `value` for x. */
    method CountRuledOut(x: Variable, value: string, assignment: Assignment) returns (n: nat)
      requires Valid() && NodeConsistent(domains) && x in puzzle.variables && |value| == x.length
      ensures n == Constraining(x, value, assignment)
    {
      n := 0;
      ghost var counted: set<(Variable, string)> := {};
      ghost var all := RuledOut(puzzle, domains, x, value, assignment.Keys);
      var neighbors := Neighbors(puzzle, x);
      var rest := neighbors;
      while rest != {}
        invariant rest <= neighbors
        invariant forall q :: q in counted <==> q in all && q.0 !in rest
        invariant n == |counted|
        decreases rest
      {
        var z :| z in rest;
        if z !in assignment {
          var overlap := puzzle.overlaps[(x, z)];
          var (i, j) := overlap.value;
          var left := domains[z];
          while left != {}
            invariant left <= domains[z]
            invariant forall q :: q in counted <==> q in all && (q.0 !in rest || (q.0 == z && q.1 !in left))
            invariant n == |counted|
            decreases left
          {
            var v :| v in left;
            if value[i] != v[j] {
              assert (z, v) in all && (z, v) !in counted;
              counted := counted + {(z, v)};
              n := n + 1;
            } else {
              assert (z, v) !in all;
            }
            left := left - {v};
          }
        }
        rest := rest - {z};
      }
      assert counted == all;
    }

    /**
     * The domain of x ordered by the number of values each rules out in
     * unassigned neighbours, fewest first; equal counts fall back to the
     * words' own order, as sorting (count, word) pairs does.
     */
    method OrderDomainValues(x: Variable, assignment: Assignment) returns (values: seq<string>)
      requires Valid() && NodeConsistent(domains) && x in puzzle.variables
      ensures forall w :: w in values <==> w in domains[x]
      ensures forall i, j | 0 <= i < j < |values| :: values[i] != values[j]
      ensures forall i, j | 0 <= i < j < |values| ::
                EntryLt((Constraining(x, values[i], assignment), values[i]),
                        (Constraining(x, values[j], assignment), values[j]))
    {
      var entries := ScoreDomain(x, assignment);
      var sorted := SortEntries(entries);
      SortedWords(entries);
      SameWords(sorted, entries);
      values := WordsOf(sorted);
      forall i | 0 <= i < |sorted|
        ensures sorted[i] == (Constraining(x, values[i], assignment), values[i])
      {
        assert sorted[i] in entries;
      }
    }

    /** Each word of x's domain once, paired with the number of values it rules out. */
    method ScoreDomain(x: Variable, assignment: Assignment) returns (entries: seq<(nat, string)>)
      requires Valid() && NodeConsistent(domains) && x in puzzle.variables
      ensures DistinctWords(entries)
      ensures forall w :: w in WordsOf(entries) <==> w in domains[x]
      ensures forall e | e in entries :: e.0 == Constraining(x, e.1, assignment)
    {
      entries := [];
      var left := domains[x];
      while left != {}
        invariant left <= domains[x]
        invariant forall w :: w in WordsOf(entries) <==> w in domains[x] && w !in left
        invariant DistinctWords(entries)
        invariant forall e | e in entries :: e.0 == Constraining(x, e.1, assignment)
        decreases left
      {
        var value :| value in left;
        var n := CountRuledOut(x, value, assignment);
        assert WordsOf(entries + [(n, value)]) == WordsOf(entries) + [value];
        entries := entries + [(n, value)];
        left := left - {value};
      }
    }

    /**
     * An unassigned variable with the fewest remaining values and, among
     * those, the most neighbours.
     */
    method SelectUnassignedVariable(assignment: Assignment) returns (v: Variable)
      requires Valid() && puzzle.variables - assignment.Keys != {}
      ensures v in puzzle.variables && v !in assignment
      ensures forall u | u in puzzle.variables && u !in assignment :: |domains[v]| <= |domains[u]|
      ensures forall u | u in puzzle.variables && u !in assignment && |domains[u]| == |domains[v]| ::
                |Neighbors(puzzle, u)| <= |Neighbors(puzzle, v)|
    {
      var vars, mrv, degree := Unassigned(assignment);
      var u0 :| u0 in puzzle.variables - assignment.Keys;
      assert u0 in vars;
      var idx := SelectIndex(mrv, degree);
      v := vars[idx];
      forall u | u in puzzle.variables && u !in assignment ensures |domains[v]| <= |domains[u]| {
        var k :| 0 <= k < |vars| && vars[k] == u;
        assert mrv[k] in mrv;
      }
      forall u | u in puzzle.variables && u !in assignment && |domains[u]| == |domains[v]|
        ensures |Neighbors(puzzle, u)| <= |Neighbors(puzzle, v)|
      {
        var k :| 0 <= k < |vars| && vars[k] == u;
      }
    }

    /** The unassigned variables with their domain sizes and their numbers of neighbours. */
    method Unassigned(assignment: Assignment) returns (vars: seq<Variable>, mrv: seq<int>, degree: seq<int>)
      requires Valid()
      ensures |vars| == |mrv| == |degree|
      ensures forall u :: u in vars <==> u in puzzle.variables && u !in assignment
      ensures forall k | 0 <= k < |vars| ::
                vars[k] in domains && mrv[k] == |domains[vars[k]]| && degree[k] == |Neighbors(puzzle, vars[k])|
    {
      mrv, degree, vars := [], [], [];
      var rest := puzzle.variables;
      while rest != {}
        invariant rest <= puzzle.variables && |vars| == |mrv| == |degree|
        invariant forall u :: u in vars <==> u in puzzle.variables && u !in rest && u !in assignment
        invariant forall k | 0 <= k < |vars| ::
                    vars[k] in domains && mrv[k] == |domains[vars[k]]| && degree[k] == |Neighbors(puzzle, vars[k])|
        decreases rest
      {
        var u :| u in rest;
        if u !in assignment {
          vars := vars + [u];
          mrv := mrv + [|domains[u]|];
          degree := degree + [|Neighbors(puzzle, u)|];
        }
        rest := rest - {u};
      }
    }

    /**
     * Backtracking search maintaining arc consistency: the chosen variable's
     * values are tried in least-constraining order until one leads to a
     * complete assignment. Domains narrowed along a failed branch stay
     * narrowed.
     */
    method Backtrack(assignment: Assignment) returns (res: Option<Assignment>)
      requires Valid() && NodeConsistent(domains) && assignment.Keys <= puzzle.variables
      modifies this
      ensures Valid() && NodeConsistent(domains)
      ensures forall v | v in domains :: domains[v] <= old(domains)[v]
      ensures res.Some? ==> Extends(res.value, assignment) && res.value.Keys == puzzle.variables
      ensures res.Some? ==> res.value == assignment || Consistent(res.value)
      ensures res.Some? ==> forall v | v in res.value && v !in assignment :: res.value[v] in old(domains)[v]
      ensures KeepsSolutions(puzzle, old(domains), domains)
      ensures res.None? ==> NoSolutionExtending(puzzle, old(domains), assignment)
      decreases puzzle.variables - assignment.Keys, 3
    {
      if AssignmentComplete(assignment) {
        return Some(assignment);
      }
      var unassigned :| unassigned in puzzle.variables && unassigned !in assignment;
      assert unassigned in puzzle.variables - assignment.Keys;
      var x := SelectUnassignedVariable(assignment);
      var values := OrderDomainValues(x, assignment);
      res := TryValues(assignment, x, values);
    }

    /**
     * The value loop of the search: tries x's values in the given order
     * until one leads to a complete assignment. When the values are all of
     * x's domain and none succeeds, no solution extends the assignment.
     */
    method TryValues(assignment: Assignment, x: Variable, values: seq<string>) returns (res: Option<Assignment>)
      requires Valid() && NodeConsistent(domains) && assignment.Keys <= puzzle.variables
      requires x in puzzle.variables && x !in assignment
      requires forall w :: w in values <==> w in domains[x]
      modifies this
      ensures Valid() && NodeConsistent(domains)
      ensures forall v | v in domains :: domains[v] <= old(domains)[v]
      ensures res.Some? ==> Extends(res.value, assignment) && res.value.Keys == puzzle.variables && Consistent(res.value)
      ensures res.Some? ==> forall v | v in res.value && v !in assignment :: res.value[v] in old(domains)[v]
      ensures KeepsSolutions(puzzle, old(domains), domains)
      ensures res.None? ==> NoSolutionExtending(puzzle, old(domains), assignment)
      decreases puzzle.variables - assignment.Keys, 2
    {
      res := None;
      ghost var tried: set<string> := {};
      for k := 0 to |values|
        invariant Valid() && NodeConsistent(domains)
        invariant forall v | v in domains :: domains[v] <= old(domains)[v]
        invariant KeepsSolutions(puzzle, old(domains), domains)
        invariant NoneTried(puzzle, old(domains), assignment, x, tried)
        invariant forall i | 0 <= i < k :: values[i] in tried
        invariant res.None?
      {
        ghost var before := domains;
        res := TryValue(assignment, x, values[k]);
        KeepsTransitive(puzzle, old(domains), before, domains);
        if res.Some? {
          ExtendsStep(res.value, assignment, x, values[k]);
          break;
        }
        TriedValue(puzzle, old(domains), before, assignment, x, tried, values[k]);
        tried := tried + {values[k]};
      }
      if res.None? {
        AllTried(puzzle, old(domains), assignment, x, values, tried);
      }
    }

    /**
     * One value of the search: when giving x this value keeps the
     * assignment consistent and AC-3 on the arcs into x leaves no domain
     * empty, the search goes on from the extended assignment.
     */
    method TryValue(assignment: Assignment, x: Variable, value: string) returns (res: Option<Assignment>)
      requires Valid() && NodeConsistent(domains) && assignment.Keys <= puzzle.variables
      requires x in puzzle.variables && x !in assignment
      modifies this
      ensures Valid() && NodeConsistent(domains)
      ensures forall v | v in domains :: domains[v] <= old(domains)[v]
      ensures res.Some? ==> Extends(res.value, assignment[x := value]) && res.value.Keys == puzzle.variables
      ensures res.Some? ==> Consistent(res.value)
      ensures res.Some? ==> forall v | v in res.value && v !in assignment && v != x :: res.value[v] in old(domains)[v]
      ensures KeepsSolutions(puzzle, old(domains), domains)
      ensures res.None? ==> NoSolutionExtending(puzzle, old(domains), assignment[x := value])
      decreases puzzle.variables - assignment.Keys, 1
    {
      if Consistent(assignment[x := value]) {
        res := Descend(assignment, x, value);
      } else {
        UnsatisfiedNoSolution(puzzle, domains, assignment[x := value]);
        res := None;
      }
    }

    /**
     * The search below a consistent extension: AC-3 on the arcs into x,
     * then, when no domain emptied, the search from the extended assignment.
     */
    method Descend(assignment: Assignment, x: Variable, value: string) returns (res: Option<Assignment>)
      requires Valid() && NodeConsistent(domains) && assignment.Keys <= puzzle.variables
      requires x in puzzle.variables && x !in assignment
      modifies this
      ensures Valid() && NodeConsistent(domains)
      ensures forall v | v in domains :: domains[v] <= old(domains)[v]
      ensures res.Some? ==> Extends(res.value, assignment[x := value]) && res.value.Keys == puzzle.variables
      ensures res.Some? ==> res.value == assignment[x := value] || Consistent(res.value)
      ensures res.Some? ==> forall v | v in res.value && v !in assignment && v != x :: res.value[v] in old(domains)[v]
      ensures KeepsSolutions(puzzle, old(domains), domains)
      ensures res.None? ==> NoSolutionExtending(puzzle, old(domains), assignment[x := value])
      decreases puzzle.variables - assignment.Keys, 0
    {
      var next := assignment[x := value];
      res := None;
      var inferences := Propagate(x);
      if inferences {
        ghost var narrowed := domains;
        assert puzzle.variables - next.Keys == (puzzle.variables - assignment.Keys) - {x};
        res := Backtrack(next);
        ShrinkTwice(old(domains), narrowed, domains);
        KeepsTransitive(puzzle, old(domains), narrowed, domains);
        if res.Some? {
          WordsFromShrunk(old(domains), narrowed, res.value, next);
        } else {
          KeepsNoSolution(puzzle, old(domains), narrowed, next);
        }
      }
    }

    /**
     * Maintaining arc consistency after x is given a value: AC-3 from the
     * arcs (z, x) for every neighbour z of x.
     */
    method Propagate(x: Variable) returns (ok: bool)
      requires Valid() && NodeConsistent(domains)
      modifies this
      ensures Valid() && NodeConsistent(domains)
      ensures forall v | v in domains :: domains[v] <= old(domains)[v]
      ensures !ok ==> exists v | v in domains :: domains[v] == {}
      ensures KeepsSolutions(puzzle, old(domains), domains)
      ensures !ok ==> NoSolution(puzzle, old(domains))
    {
      var arcs := AppendArcsInto([], x, {});
      ok := Ac3(Some(arcs));
    }

    /** Node consistency, AC-3 over every arc, then a search from the empty assignment. */
    method Solve() returns (res: Option<Assignment>)
      requires Valid()
      modifies this
      ensures Valid() && NodeConsistent(domains)
      ensures res.Some? ==> res.value.Keys == puzzle.variables && Consistent(res.value)
      ensures res.Some? ==> forall v | v in res.value :: res.value[v] in old(domains)[v]
      ensures res.Some? ==> Solution(puzzle, old(domains), res.value)
      ensures res.None? ==> NoSolution(puzzle, old(domains))
    {
      FitLengthKeepsSolutions(puzzle, domains);
      EnforceNodeConsistency();
      ghost var fitted := domains;
      var arcConsistent := Ac3(None);
      KeepsTransitive(puzzle, old(domains), fitted, domains);
      ghost var narrowed := domains;
      res := Backtrack(map[]);
      if res.None? {
        KeepsNoSolution(puzzle, old(domains), narrowed, map[]);
      }
    }

    /**
     * The grid of letters an assignment writes: each letter of each word
     * goes to its cell, and cells no word reaches stay empty.
     */
    method LetterGrid(assignment: Assignment) returns (letters: array2<Option<char>>)
      requires forall v, k | v in assignment && 0 <= k < |assignment[v]| ::
                 0 <= Cell(v, k).0 < puzzle.height && 0 <= Cell(v, k).1 < puzzle.width
      ensures fresh(letters) && letters.Length0 == puzzle.height && letters.Length1 == puzzle.width
      ensures forall r, c | 0 <= r < puzzle.height && 0 <= c < puzzle.width ::
                (letters[r, c].Some? <==> Covered(assignment, r, c)) &&
                (letters[r, c].Some? ==> LetterAt(assignment, r, c, letters[r, c].value))
    {
      letters := new Option<char>[puzzle.height, puzzle.width]((_, _) => None);
      ghost var placed: set<(Variable, int)> := {};
      var rest := assignment.Keys;
      while rest != {}
        invariant rest <= assignment.Keys
        invariant forall q :: q in placed <==> q.0 in assignment && q.0 !in rest && 0 <= q.1 < |assignment[q.0]|
        invariant forall r, c | 0 <= r < puzzle.height && 0 <= c < puzzle.width ::
                    (letters[r, c].Some? <==> CoveredBy(placed, r, c)) &&
                    (letters[r, c].Some? ==> LetterBy(assignment, placed, r, c, letters[r, c].value))
        decreases rest
      {
        var v :| v in rest;
        placed := WriteWord(letters, assignment, v, placed);
        rest := rest - {v};
      }
      forall r, c | 0 <= r < puzzle.height && 0 <= c < puzzle.width
        ensures (letters[r, c].Some? <==> Covered(assignment, r, c)) &&
                (letters[r, c].Some? ==> LetterAt(assignment, r, c, letters[r, c].value))
      {
        PlacedAll(assignment, placed, r, c);
      }
    }
  }

  /**
   * Writes each letter of v's word into its cell, so that the letters
   * written so far are exactly those of `placed` and of v's word.
   */
  method WriteWord(letters: array2<Option<char>>, a: Assignment, v: Variable, ghost placed: set<(Variable, int)>)
      returns (ghost placedAfter: set<(Variable, int)>)
    requires v in a
    requires forall k | 0 <= k < |a[v]| :: 0 <= Cell(v, k).0 < letters.Length0 && 0 <= Cell(v, k).1 < letters.Length1
    requires forall r, c | 0 <= r < letters.Length0 && 0 <= c < letters.Length1 ::
               (letters[r, c].Some? <==> CoveredBy(placed, r, c)) &&
               (letters[r, c].Some? ==> LetterBy(a, placed, r, c, letters[r, c].value))
    modifies letters
    ensures forall q :: q in placedAfter <==> q in placed || (q.0 == v && 0 <= q.1 < |a[v]|)
    ensures forall r, c | 0 <= r < letters.Length0 && 0 <= c < letters.Length1 ::
              (letters[r, c].Some? <==> CoveredBy(placedAfter, r, c)) &&
              (letters[r, c].Some? ==> LetterBy(a, placedAfter, r, c, letters[r, c].value))
  {
    placedAfter := placed;
    var word := a[v];
    for k := 0 to |word|
      invariant forall q :: q in placedAfter <==> q in placed || (q.0 == v && 0 <= q.1 < k)
      invariant forall r, c | 0 <= r < letters.Length0 && 0 <= c < letters.Length1 ::
                  (letters[r, c].Some? <==> CoveredBy(placedAfter, r, c)) &&
                  (letters[r, c].Some? ==> LetterBy(a, placedAfter, r, c, letters[r, c].value))
    {
      var i := v.i + (if v.direction == Down then k else 0);
      var j := v.j + (if v.direction == Across then k else 0);
      assert (i, j) == Cell(v, k);
      ghost var prev := placedAfter;
      label Before:
      letters[i, j] := Some(word[k]);
      PlaceLetter(a, prev, v, k);
      placedAfter := prev + {(v, k)};
      forall r, c | 0 <= r < letters.Length0 && 0 <= c < letters.Length1
        ensures (letters[r, c].Some? <==> CoveredBy(placedAfter, r, c)) &&
                (letters[r, c].Some? ==> LetterBy(a, placedAfter, r, c, letters[r, c].value))
      {
        if (r, c) != (i, j) {
          assert letters[r, c] == old@Before(letters[r, c]);
        }
      }
    }
  }

  /** Two successive narrowings of the domains are one narrowing. */
  lemma ShrinkTwice(d0: Domains, d1: Domains, d2: Domains)
    requires d2.Keys == d1.Keys == d0.Keys
    requires forall v | v in d1 :: d1[v] <= d0[v]
    requires forall v | v in d2 :: d2[v] <= d1[v]
    ensures forall v | v in d2 :: d2[v] <= d0[v]
  {
  }

  /** Words taken from narrowed domains come from the original ones. */
  lemma WordsFromShrunk(d0: Domains, d1: Domains, r: Assignment, base: Assignment)
    requires d1.Keys == d0.Keys
    requires forall v | v in d1 :: d1[v] <= d0[v]
    requires forall v | v in r && v !in base :: v in d1 && r[v] in d1[v]
    ensures forall v | v in r && v !in base :: r[v] in d0[v]
  {
  }

  /** An extension of `base` with x set to `value` extends `base` and keeps that value. */
  lemma ExtendsStep(r: Assignment, base: Assignment, x: Variable, value: string)
    requires x !in base && Extends(r, base[x := value])
    ensures Extends(r, base) && x in r && r[x] == value
  {
    assert x in base[x := value];
  }

  /** Some placed letter lands in cell (r, c). */
  ghost predicate CoveredBy(placed: set<(Variable, int)>, r: int, c: int) {
    exists q | q in placed :: Cell(q.0, q.1) == (r, c)
  }

  /** Some placed letter landing in cell (r, c) is ch. */
  ghost predicate LetterBy(a: Assignment, placed: set<(Variable, int)>, r: int, c: int, ch: char) {
    exists q | q in placed && q.0 in a && 0 <= q.1 < |a[q.0]| && Cell(q.0, q.1) == (r, c) :: a[q.0][q.1] == ch
  }

  /** Some letter of the assignment lands in cell (r, c). */
  ghost predicate Covered(a: Assignment, r: int, c: int) {
    exists v, k | v in a && 0 <= k < |a[v]| :: Cell(v, k) == (r, c)
  }

  /** Some letter of the assignment landing in cell (r, c) is ch. */
  ghost predicate LetterAt(a: Assignment, r: int, c: int, ch: char) {
    exists v, k | v in a && 0 <= k < |a[v]| && Cell(v, k) == (r, c) :: a[v][k] == ch
  }

  /** Placing letter k of v's word: its cell is now covered and holds that letter; no other cell changes. */
  lemma PlaceLetter(a: Assignment, placed: set<(Variable, int)>, v: Variable, k: int)
    requires v in a && 0 <= k < |a[v]|
    ensures CoveredBy(placed + {(v, k)}, Cell(v, k).0, Cell(v, k).1)
    ensures LetterBy(a, placed + {(v, k)}, Cell(v, k).0, Cell(v, k).1, a[v][k])
    ensures forall r, c | (r, c) != Cell(v, k) :: CoveredBy(placed + {(v, k)}, r, c) == CoveredBy(placed, r, c)
    ensures forall r, c, ch | (r, c) != Cell(v, k) :: LetterBy(a, placed + {(v, k)}, r, c, ch) == LetterBy(a, placed, r, c, ch)
  {
    assert (v, k) in placed + {(v, k)};
  }

  /** Once every letter is placed, "placed" means "in the assignment". */
  lemma PlacedAll(a: Assignment, placed: set<(Variable, int)>, r: int, c: int)
    requires forall q :: q in placed <==> q.0 in a && 0 <= q.1 < |a[q.0]|
    ensures CoveredBy(placed, r, c) <==> Covered(a, r, c)
    ensures forall ch :: LetterBy(a, placed, r, c, ch) <==> LetterAt(a, r, c, ch)
  {
    if Covered(a, r, c) {
      var v, k :| v in a && 0 <= k < |a[v]| && Cell(v, k) == (r, c);
      assert (v, k) in placed;
    }
    forall ch | LetterAt(a, r, c, ch) ensures LetterBy(a, placed, r, c, ch) {
      var v, k :| v in a && 0 <= k < |a[v]| && Cell(v, k) == (r, c) && a[v][k] == ch;
      assert (v, k) in placed;
    }
  }
}
