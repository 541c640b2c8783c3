/**
 * Pairing of classified assignment files into (problem, solution) batches: the two role maps
 * filled with last-write-wins, Python's string order and `sorted`, and the reference order in
 * which batches come out.
 */
module AssignmentPairing {
  import opened Wrappers
  import opened Text
  import opened AssignmentPatterns

  // ----- The role maps -----------------------------------------------------------------------

  /** The classification of each name, in order. */
  function Classifications(names: seq<string>): (cs: seq<Option<Classification>>)
    ensures |cs| == |names| && forall i :: 0 <= i < |names| ==> cs[i] == Classify(names[i])
  {
    seq(|names|, i requires 0 <= i < |names| => Classify(names[i]))
  }

  /**
   * The map of role `role` filled from `names`, whose classifications are `cs`: each name
   * classified with that role is stored under its key, a later name overwriting an earlier one.
   */
  function Fill(names: seq<string>, cs: seq<Option<Classification>>, role: Role): (m: map<string, string>)
    requires |cs| == |names|
  {
    if names == [] then map[]
    else
      var n := |names| - 1;
      var m := Fill(names[..n], cs[..n], role);
      match cs[n]
      case Some(c) => if c.role == role then m[c.key := names[n]] else m
      case None => m
  }

  /**
   * `hw_map` (role Problem) or `sol_map` (role Solution) after the classification loop has seen
   * `names`. Every entry is a name of that role stored under its own key.
   */
  function RoleMap(names: seq<string>, role: Role): (m: map<string, string>)
    ensures forall k :: k in m ==> IsKey(k) && Classify(m[k]) == Some(Classification(role, k))
  {
    FillEntries(names, Classifications(names), role);
    Fill(names, Classifications(names), role)
  }

  /** One more step of the classification loop: the name at `i` is stored when its role matches. */
  lemma FillPrefixStep(names: seq<string>, cs: seq<Option<Classification>>, role: Role, i: nat)
    requires |cs| == |names| && i < |names|
    ensures Fill(names[..i + 1], cs[..i + 1], role)
         == if cs[i].Some? && cs[i].value.role == role then Fill(names[..i], cs[..i], role)[cs[i].value.key := names[i]]
            else Fill(names[..i], cs[..i], role)
  {
    assert names[..i + 1][..i] == names[..i] && cs[..i + 1][..i] == cs[..i];
  }

  /** `names[i]` is the last name whose classification in `cs` has role `role` and key `k`. */
  predicate LastWith(names: seq<string>, cs: seq<Option<Classification>>, role: Role, k: string, i: int)
    requires |cs| == |names|
  {
    0 <= i < |names| && cs[i] == Some(Classification(role, k))
    && forall j :: i < j < |names| ==> cs[j] != Some(Classification(role, k))
  }

  /** A key is in the filled map exactly when some name was classified with that role and key. */
  lemma {:induction false} FillKeys(names: seq<string>, cs: seq<Option<Classification>>, role: Role, k: string)
    requires |cs| == |names|
    ensures k in Fill(names, cs, role) <==> exists i :: 0 <= i < |names| && cs[i] == Some(Classification(role, k))
  {
    if names != [] {
      var n := |names| - 1;
      FillKeys(names[..n], cs[..n], role, k);
      if exists i :: 0 <= i < |names| && cs[i] == Some(Classification(role, k)) {
        var i :| 0 <= i < |names| && cs[i] == Some(Classification(role, k));
        if i < n {
          assert cs[..n][i] == cs[i];
        }
      }
    }
  }

  /** Last write wins: a key in the filled map maps to the last name classified with that role and key. */
  lemma {:induction false} FillLastWrite(names: seq<string>, cs: seq<Option<Classification>>, role: Role, k: string)
    requires |cs| == |names| && k in Fill(names, cs, role)
    ensures exists i :: LastWith(names, cs, role, k, i) && Fill(names, cs, role)[k] == names[i]
  {
    assert names != [];
    var n := |names| - 1;
    var init, ics := names[..n], cs[..n];
    var m := Fill(init, ics, role);
    if cs[n] == Some(Classification(role, k)) {
      assert LastWith(names, cs, role, k, n);
    } else {
      assert Fill(names, cs, role)[k] == m[k] && k in m;
      FillLastWrite(init, ics, role, k);
      var i :| LastWith(init, ics, role, k, i) && m[k] == init[i];
      assert forall j :: i < j < n ==> ics[j] == cs[j];
      assert LastWith(names, cs, role, k, i);
    }
  }

  /** Every entry of the filled map is a name classified with that role and the entry's key. */
  lemma FillEntries(names: seq<string>, cs: seq<Option<Classification>>, role: Role)
    requires |cs| == |names|
    ensures forall k :: k in Fill(names, cs, role) ==>
      exists i :: 0 <= i < |names| && cs[i] == Some(Classification(role, k)) && Fill(names, cs, role)[k] == names[i]
  {
    forall k | k in Fill(names, cs, role)
      ensures exists i :: 0 <= i < |names| && cs[i] == Some(Classification(role, k)) && Fill(names, cs, role)[k] == names[i]
    {
      FillLastWrite(names, cs, role, k);
    }
  }

  /**
   * Last write wins for `hw_map`/`sol_map`: a key is present exactly when some name was classified
   * with that role and key, and it then holds the last such name in iteration order.
   */
  lemma RoleMapLastWrite(names: seq<string>, role: Role, k: string)
    ensures k in RoleMap(names, role) <==>
      exists i :: 0 <= i < |names| && Classify(names[i]) == Some(Classification(role, k))
    ensures k in RoleMap(names, role) ==> exists i ::
      && 0 <= i < |names| && RoleMap(names, role)[k] == names[i]
      && Classify(names[i]) == Some(Classification(role, k))
      && forall j :: i < j < |names| ==> Classify(names[j]) != Some(Classification(role, k))
  {
    var cs := Classifications(names);
    FillKeys(names, cs, role, k);
    if k in RoleMap(names, role) {
      FillLastWrite(names, cs, role, k);
      var i :| LastWith(names, cs, role, k, i) && Fill(names, cs, role)[k] == names[i];
      assert forall j :: i < j < |names| ==> Classify(names[j]) != Some(Classification(role, k));
    }
  }

  // ----- Python's string order and `sorted` ---------------------------------------------------

  /** Python's `a < b` on strings: lexicographic by code point, a proper prefix comes first. */
  predicate StrLess(a: string, b: string) {
    if a == [] then b != []
    else if b == [] then false
    else a[0] < b[0] || (a[0] == b[0] && StrLess(a[1..], b[1..]))
  }

  lemma {:induction false} StrLessIrreflexive(a: string)
    ensures !StrLess(a, a)
  {
    if a != [] {
      StrLessIrreflexive(a[1..]);
    }
  }

  lemma {:induction false} StrLessTransitive(a: string, b: string, c: string)
    requires StrLess(a, b) && StrLess(b, c)
    ensures StrLess(a, c)
  {
    if a != [] && b != [] && c != [] && a[0] == b[0] && b[0] == c[0] {
      StrLessTransitive(a[1..], b[1..], c[1..]);
    }
  }

  lemma {:induction false} StrLessTotal(a: string, b: string)
    ensures a == b || StrLess(a, b) || StrLess(b, a)
  {
    if a != [] && b != [] && a[0] == b[0] {
      StrLessTotal(a[1..], b[1..]);
      if a[1..] == b[1..] {
        assert a == [a[0]] + a[1..] && b == [b[0]] + b[1..];
      }
    }
  }

  lemma StrLessAsymmetric(a: string, b: string)
    requires StrLess(a, b)
    ensures !StrLess(b, a)
  {
    if StrLess(b, a) {
      StrLessTransitive(a, b, a);
      StrLessIrreflexive(a);
    }
  }

  /** Strictly increasing in string order. */
  predicate Increasing(ks: seq<string>) {
    forall i, j :: 0 <= i < j < |ks| ==> StrLess(ks[i], ks[j])
  }

  /** The smallest element of a non-empty set of strings. */
  method MinOf(s: set<string>) returns (m: string)
    requires s != {}
    ensures m in s && forall k :: k in s && k != m ==> StrLess(m, k)
  {
    m :| m in s;
    var rest := s - {m};
    while rest != {}
      invariant rest <= s && m in s && m !in rest
      invariant forall k :: k in s && k !in rest && k != m ==> StrLess(m, k)
      decreases |rest|
    {
      var x :| x in rest;
      if StrLess(x, m) {
        forall k | k in s && k !in rest && k != x
          ensures StrLess(x, k)
        {
          if k != m {
            StrLessTransitive(x, m, k);
          }
        }
        m := x;
      } else {
        StrLessTotal(x, m);
      }
      rest := rest - {x};
    }
  }

  /** `sorted(keys)` for a set of strings: every element once, in increasing string order. */
  method SortKeys(keys: set<string>) returns (r: seq<string>)
    ensures forall k :: k in r <==> k in keys
    ensures Increasing(r)
  {
    r := [];
    var rest := keys;
    while rest != {}
      invariant rest <= keys
      invariant forall k :: k in r <==> k in keys && k !in rest
      invariant Increasing(r)
      invariant forall i, k :: 0 <= i < |r| && k in rest ==> StrLess(r[i], k)
      decreases |rest|
    {
      var m := MinOf(rest);
      forall i, k | 0 <= i < |r| && k in rest - {m}
        ensures StrLess(r[i], k)
      {
      }
      r := r + [m];
      rest := rest - {m};
    }
  }

  /** Two strictly increasing sequences with the same elements are the same sequence. */
  lemma {:induction false} IncreasingUnique(a: seq<string>, b: seq<string>)
    requires Increasing(a) && Increasing(b)
    requires forall k :: k in a <==> k in b
    ensures a == b
    decreases |a| + |b|
  {
    assert |a| > 0 ==> a[0] in a;
    assert |b| > 0 ==> b[0] in b;
    if a != [] && b != [] {
      assert a[0] in b && b[0] in a;
      if a[0] != b[0] {
        var i :| 0 <= i < |a| && a[i] == b[0];
        var j :| 0 <= j < |b| && b[j] == a[0];
        StrLessAsymmetric(a[0], b[0]);
        assert false;
      }
      forall k ensures k in a[1..] <==> k in b[1..] {
        if k in a[1..] {
          var i :| 1 <= i < |a| && a[i] == k;
          StrLessIrreflexive(k);
          assert k in b;
        }
        if k in b[1..] {
          var j :| 1 <= j < |b| && b[j] == k;
          StrLessIrreflexive(k);
          assert k in a;
        }
      }
      IncreasingUnique(a[1..], b[1..]);
    }
  }

  // ----- The reference order of keys -----------------------------------------------------------

  /** The two-digit key for 0 <= n < 100. */
  function KeyOf(n: nat): (k: string)
    requires n < 100
    ensures IsKey(k)
  {
    [DigitChar(n / 10), DigitChar(n % 10)]
  }

  /** On two-digit keys, string order is numeric order. */
  lemma KeyOfOrder(m: nat, n: nat)
    requires m < n < 100
    ensures StrLess(KeyOf(m), KeyOf(n))
  {
    var a, b := KeyOf(m), KeyOf(n);
    if m / 10 == n / 10 {
      assert a[1..][1..] == [] && b[1..][1..] == [];
    }
  }

  /** Every key is `KeyOf` of some number below 100. */
  lemma KeyOfOnto(k: string)
    requires IsKey(k)
    ensures exists n: nat :: n < 100 && KeyOf(n) == k
  {
    var n := DigitValue(k[0]) * 10 + DigitValue(k[1]);
    assert KeyOf(n) == k;
  }

  /** The elements of `keys` that are two-digit keys, walking "00", "01", ..., "99" from `KeyOf(n)`. */
  function KeysInOrderFrom(keys: set<string>, n: nat): seq<string>
    requires n <= 100
    decreases 100 - n
  {
    if n == 100 then []
    else (if KeyOf(n) in keys then [KeyOf(n)] else []) + KeysInOrderFrom(keys, n + 1)
  }

  lemma {:induction false} KeysInOrderFromSpec(keys: set<string>, n: nat)
    requires n <= 100
    ensures Increasing(KeysInOrderFrom(keys, n))
    ensures forall k :: k in KeysInOrderFrom(keys, n) <==>
      k in keys && exists m: nat :: n <= m < 100 && KeyOf(m) == k
    decreases 100 - n
  {
    if n < 100 {
      KeysInOrderFromSpec(keys, n + 1);
      var rest := KeysInOrderFrom(keys, n + 1);
      forall j | 0 <= j < |rest| ensures StrLess(KeyOf(n), rest[j]) {
        assert rest[j] in rest;
        var m: nat :| n + 1 <= m < 100 && KeyOf(m) == rest[j];
        KeyOfOrder(n, m);
      }
      forall k | k in keys && KeyOf(n) != k && (exists m: nat :: n <= m < 100 && KeyOf(m) == k)
        ensures exists m: nat :: n + 1 <= m < 100 && KeyOf(m) == k
      {
        var m: nat :| n <= m < 100 && KeyOf(m) == k;
      }
    }
  }

  /** The keys of a set of two-digit keys in increasing order, as a reference for `sorted`. */
  function SortedKeys(keys: set<string>): seq<string> {
    KeysInOrderFrom(keys, 0)
  }

  /** `SortedKeys` lists the two-digit keys of the set, each once, in increasing string order. */
  lemma SortedKeysSpec(keys: set<string>)
    ensures Increasing(SortedKeys(keys))
    ensures forall k :: k in SortedKeys(keys) <==> k in keys && IsKey(k)
  {
    KeysInOrderFromSpec(keys, 0);
    forall k | k in keys && IsKey(k) ensures k in SortedKeys(keys) {
      KeyOfOnto(k);
    }
  }

  /** Sorting a set of two-digit keys gives exactly the reference order. */
  lemma SortIsReference(keys: set<string>, r: seq<string>)
    requires forall k :: k in keys ==> IsKey(k)
    requires Increasing(r) && forall k :: k in r <==> k in keys
    ensures r == SortedKeys(keys)
  {
    SortedKeysSpec(keys);
    IncreasingUnique(r, SortedKeys(keys));
  }

  // ----- Batches ----------------------------------------------------------------------------------

  /** Whether the pairs loop emits a pair for key `k` (`if hw and sol`: both present and non-empty). */
  predicate Emits(k: string, hw: map<string, string>, sol: map<string, string>) {
    k in hw && k in sol && hw[k] != [] && sol[k] != []
  }

  /** The pairs loop over `keys`: `(hw_map[k], sol_map[k])` for each key it emits. */
  function PairsFor(keys: seq<string>, hw: map<string, string>, sol: map<string, string>): seq<(string, string)> {
    if keys == [] then []
    else
      var k := keys[|keys| - 1];
      PairsFor(keys[..|keys| - 1], hw, sol) + (if Emits(k, hw, sol) then [(hw[k], sol[k])] else [])
  }

  /** One more step of the pairs loop. */
  lemma PairsForPrefixStep(keys: seq<string>, hw: map<string, string>, sol: map<string, string>, j: nat)
    requires j < |keys|
    ensures PairsFor(keys[..j + 1], hw, sol)
         == PairsFor(keys[..j], hw, sol) + (if Emits(keys[j], hw, sol) then [(hw[keys[j]], sol[keys[j]])] else [])
  {
    assert keys[..j + 1][..j] == keys[..j];
  }

  /** The keys among `keys` that the pairs loop emits, in the same order. */
  function EmittedKeys(keys: seq<string>, hw: map<string, string>, sol: map<string, string>): seq<string> {
    if keys == [] then []
    else
      var k := keys[|keys| - 1];
      EmittedKeys(keys[..|keys| - 1], hw, sol) + (if Emits(k, hw, sol) then [k] else [])
  }

  /** The pairs loop emits one pair per emitted key, in key order, and drops every other key. */
  lemma {:induction false} PairsForSpec(keys: seq<string>, hw: map<string, string>, sol: map<string, string>)
    ensures var ps, ks := PairsFor(keys, hw, sol), EmittedKeys(keys, hw, sol);
      && |ps| == |ks|
      && (forall j :: 0 <= j < |ks| ==> Emits(ks[j], hw, sol) && ps[j] == (hw[ks[j]], sol[ks[j]]))
      && (forall k :: k in ks <==> k in keys && Emits(k, hw, sol))
      && (Increasing(keys) ==> Increasing(ks))
  {
    if keys != [] {
      var init := keys[..|keys| - 1];
      PairsForSpec(init, hw, sol);
      var ks := EmittedKeys(keys, hw, sol);
      var k := keys[|keys| - 1];
      assert forall x :: x in keys <==> x in init || x == k;
      if Increasing(keys) {
        assert Increasing(init);
        forall i, j | 0 <= i < j < |ks| ensures StrLess(ks[i], ks[j]) {
          if j == |ks| - 1 && Emits(k, hw, sol) {
            assert ks[i] in init;
          }
        }
      }
    }
  }

  /** `problem_set_batches` as the pairer computes it from `problem_set_filenames`. */
  function Batches(names: seq<string>): seq<(string, string)> {
    var hw, sol := RoleMap(names, Problem), RoleMap(names, Solution);
    PairsFor(SortedKeys(hw.Keys + sol.Keys), hw, sol)
  }

  /** Pairing up the role maps in any increasing order of their keys gives the batches. */
  lemma BatchesFromSortedKeys(names: seq<string>, hw: map<string, string>, sol: map<string, string>, keys: seq<string>)
    requires hw == Fill(names, Classifications(names), Problem) && sol == Fill(names, Classifications(names), Solution)
    requires Increasing(keys) && forall k :: k in keys <==> k in hw.Keys + sol.Keys
    ensures Batches(names) == PairsFor(keys, hw, sol)
  {
    assert hw == RoleMap(names, Problem) && sol == RoleMap(names, Solution);
    SortIsReference(hw.Keys + sol.Keys, keys);
  }

  /** The key of each batch, in batch order. */
  function BatchKeys(names: seq<string>): seq<string> {
    var hw, sol := RoleMap(names, Problem), RoleMap(names, Solution);
    EmittedKeys(SortedKeys(hw.Keys + sol.Keys), hw, sol)
  }

  /** Whether some name of `names` is classified with role `role` and key `k`. */
  predicate Seen(names: seq<string>, role: Role, k: string) {
    exists i :: 0 <= i < |names| && Classify(names[i]) == Some(Classification(role, k))
  }

  /** Every stored name is non-empty, so the `if hw and sol` test reduces to presence. */
  lemma EmitsIffPresent(names: seq<string>, k: string)
    ensures Emits(k, RoleMap(names, Problem), RoleMap(names, Solution)) <==>
      k in RoleMap(names, Problem) && k in RoleMap(names, Solution)
  {
    var hw, sol := RoleMap(names, Problem), RoleMap(names, Solution);
    if k in hw && k in sol {
      ClassifiedNamesEndInPdf(hw[k]);
      ClassifiedNamesEndInPdf(sol[k]);
    }
  }

  /** Batches and their keys line up, in strictly ascending key order, one map entry of each role per batch. */
  lemma BatchesOrdered(names: seq<string>)
    ensures var bs, ks := Batches(names), BatchKeys(names);
      && |bs| == |ks|
      && Increasing(ks)
      && (forall j :: 0 <= j < |ks| ==>
            && ks[j] in RoleMap(names, Problem) && ks[j] in RoleMap(names, Solution)
            && bs[j] == (RoleMap(names, Problem)[ks[j]], RoleMap(names, Solution)[ks[j]]))
  {
    var hw, sol := RoleMap(names, Problem), RoleMap(names, Solution);
    SortedKeysSpec(hw.Keys + sol.Keys);
    PairsForSpec(SortedKeys(hw.Keys + sol.Keys), hw, sol);
  }

  /** A key gets a batch exactly when it was seen with both roles: keys seen with one role only are dropped. */
  lemma BatchKeysComplete(names: seq<string>, k: string)
    ensures k in BatchKeys(names) <==> Seen(names, Problem, k) && Seen(names, Solution, k)
  {
    var hw, sol := RoleMap(names, Problem), RoleMap(names, Solution);
    SortedKeysSpec(hw.Keys + sol.Keys);
    PairsForSpec(SortedKeys(hw.Keys + sol.Keys), hw, sol);
    RoleMapLastWrite(names, Problem, k);
    RoleMapLastWrite(names, Solution, k);
    EmitsIffPresent(names, k);
  }

  /**
   * The pairer's promise: batches come in strictly ascending key order; the batch for key `k`
   * re-classifies as the problem and the solution for `k`; and a key gets a batch exactly when it
   * was seen with both roles.
   */
  lemma BatchesSpec(names: seq<string>)
    ensures |Batches(names)| == |BatchKeys(names)|
    ensures Increasing(BatchKeys(names))
    ensures forall j :: 0 <= j < |BatchKeys(names)| ==>
      && Classify(Batches(names)[j].0) == Some(Classification(Problem, BatchKeys(names)[j]))
      && Classify(Batches(names)[j].1) == Some(Classification(Solution, BatchKeys(names)[j]))
    ensures forall k :: k in BatchKeys(names) <==> Seen(names, Problem, k) && Seen(names, Solution, k)
  {
    var bs, ks := Batches(names), BatchKeys(names);
    var hw, sol := RoleMap(names, Problem), RoleMap(names, Solution);
    BatchesOrdered(names);
    forall j | 0 <= j < |ks|
      ensures Classify(bs[j].0) == Some(Classification(Problem, ks[j]))
      ensures Classify(bs[j].1) == Some(Classification(Solution, ks[j]))
    {
      var k := ks[j];
      assert bs[j].0 == hw[k] && bs[j].1 == sol[k];
    }
    forall k ensures k in ks <==> Seen(names, Problem, k) && Seen(names, Solution, k) {
      BatchKeysComplete(names, k);
    }
  }

  /** The batches are distinct keys' pairs: no problem file and no solution file is used twice. */
  lemma BatchesDistinct(names: seq<string>, i: nat, j: nat)
    requires i < j < |Batches(names)|
    ensures Batches(names)[i].0 != Batches(names)[j].0 && Batches(names)[i].1 != Batches(names)[j].1
  {
    BatchesSpec(names);
    var ks := BatchKeys(names);
    StrLessIrreflexive(ks[i]);
  }

  /** The names of the batching example below. */
  function ExampleNames(): seq<string> {
    ["hw01.pdf", "hw01_sol.pdf", "ps02.pdf", "sol02.pdf", "hw03.pdf"]
  }

  /** The classifications of the example names, worked out in `ExampleClassifications`. */
  function ExampleClasses(): seq<Option<Classification>> {
    [Some(Classification(Problem, "01")), Some(Classification(Solution, "01")),
     Some(Classification(Problem, "02")), Some(Classification(Solution, "02")),
     Some(Classification(Problem, "03"))]
  }

  /** The first name of the example, "hw01.pdf", is the problem for key "01". */
  lemma ExampleHomework(s: string)
    requires s == ExampleNames()[0]
    ensures Classify(s) == ExampleClasses()[0]
  {
    assert s == "hw01.pdf";
    ClassifyHomeworkExample(s, "01");
  }

  /** The second, "hw01_sol.pdf", is the solution for key "01". */
  lemma ExampleInlineSolution(s: string)
    requires s == ExampleNames()[1]
    ensures Classify(s) == ExampleClasses()[1]
  {
    assert s == "hw01_sol.pdf";
    ClassifyInlineExample(s);
  }

  /** The third, "ps02.pdf", is the problem for key "02". */
  lemma ExampleProblemSet(s: string)
    requires s == ExampleNames()[2]
    ensures Classify(s) == ExampleClasses()[2]
  {
    assert s == "ps02.pdf";
    ClassifyPs02Example(s);
  }

  /** The fourth, "sol02.pdf", is the solution for key "02". */
  lemma ExampleSeparateSolution(s: string)
    requires s == ExampleNames()[3]
    ensures Classify(s) == ExampleClasses()[3]
  {
    assert s == "sol02.pdf";
    ClassifySeparateExample(s);
  }

  /** The fifth, "hw03.pdf", is the problem for key "03" (it has no solution). */
  lemma ExampleUnsolved(s: string)
    requires s == ExampleNames()[4]
    ensures Classify(s) == ExampleClasses()[4]
  {
    assert s == "hw03.pdf";
    ClassifyHomeworkExample(s, "03");
  }

  /** The classifications of the example names. */
  lemma ExampleClassifications(names: seq<string>)
    requires names == ExampleNames()
    ensures Classifications(names) == ExampleClasses()
  {
    forall i | 0 <= i < 5
      ensures Classifications(names)[i] == ExampleClasses()[i]
    {
      if i == 0 {
        ExampleHomework(names[i]);
      } else if i == 1 {
        ExampleInlineSolution(names[i]);
      } else if i == 2 {
        ExampleProblemSet(names[i]);
      } else if i == 3 {
        ExampleSeparateSolution(names[i]);
      } else {
        ExampleUnsolved(names[i]);
      }
    }
  }

  /** Filling one more name: it is stored under its key when its role matches, otherwise nothing changes. */
  lemma FillSnoc(names: seq<string>, cs: seq<Option<Classification>>, role: Role, n: string, c: Option<Classification>)
    requires |cs| == |names|
    ensures Fill(names + [n], cs + [c], role)
         == if c.Some? && c.value.role == role then Fill(names, cs, role)[c.value.key := n] else Fill(names, cs, role)
  {
    assert (names + [n])[..|names|] == names;
    assert (cs + [c])[..|cs|] == cs;
  }

  /** Filling the example maps, one name at a time. */
  lemma ExampleFill(role: Role)
    ensures Fill(ExampleNames(), ExampleClasses(), role)
         == if role == Problem then map["01" := "hw01.pdf", "02" := "ps02.pdf", "03" := "hw03.pdf"]
            else map["01" := "hw01_sol.pdf", "02" := "sol02.pdf"]
  {
    var p1, s1, p2, s2, p3 := Some(Classification(Problem, "01")), Some(Classification(Solution, "01")),
      Some(Classification(Problem, "02")), Some(Classification(Solution, "02")), Some(Classification(Problem, "03"));
    assert [] + ["hw01.pdf"] == ["hw01.pdf"] && [] + [p1] == [p1];
    assert ["hw01.pdf"] + ["hw01_sol.pdf"] == ["hw01.pdf", "hw01_sol.pdf"] && [p1] + [s1] == [p1, s1];
    assert ["hw01.pdf", "hw01_sol.pdf"] + ["ps02.pdf"] == ["hw01.pdf", "hw01_sol.pdf", "ps02.pdf"] && [p1, s1] + [p2] == [p1, s1, p2];
    assert ["hw01.pdf", "hw01_sol.pdf", "ps02.pdf"] + ["sol02.pdf"] == ["hw01.pdf", "hw01_sol.pdf", "ps02.pdf", "sol02.pdf"]
        && [p1, s1, p2] + [s2] == [p1, s1, p2, s2];
    assert ["hw01.pdf", "hw01_sol.pdf", "ps02.pdf", "sol02.pdf"] + ["hw03.pdf"] == ExampleNames()
        && [p1, s1, p2, s2] + [p3] == ExampleClasses();
    FillSnoc([], [], role, "hw01.pdf", p1);
    FillSnoc(["hw01.pdf"], [p1], role, "hw01_sol.pdf", s1);
    FillSnoc(["hw01.pdf", "hw01_sol.pdf"], [p1, s1], role, "ps02.pdf", p2);
    FillSnoc(["hw01.pdf", "hw01_sol.pdf", "ps02.pdf"], [p1, s1, p2], role, "sol02.pdf", s2);
    FillSnoc(["hw01.pdf", "hw01_sol.pdf", "ps02.pdf", "sol02.pdf"], [p1, s1, p2, s2], role, "hw03.pdf", p3);
  }

  /** The role maps of the example. */
  lemma ExampleRoleMap(names: seq<string>, role: Role)
    requires names == ExampleNames()
    ensures RoleMap(names, role)
         == if role == Problem then map["01" := "hw01.pdf", "02" := "ps02.pdf", "03" := "hw03.pdf"]
            else map["01" := "hw01_sol.pdf", "02" := "sol02.pdf"]
  {
    ExampleClassifications(names);
    ExampleFill(role);
  }

  /**
   * Example: ["hw01.pdf", "hw01_sol.pdf", "ps02.pdf", "sol02.pdf", "hw03.pdf"] gives the batches
   * ("hw01.pdf", "hw01_sol.pdf") and ("ps02.pdf", "sol02.pdf"); "hw03.pdf" has no solution and is dropped.
   */
  lemma BatchesExample(names: seq<string>)
    requires names == ExampleNames()
    ensures Batches(names) == [("hw01.pdf", "hw01_sol.pdf"), ("ps02.pdf", "sol02.pdf")]
  {
    ExampleRoleMap(names, Problem);
    ExampleRoleMap(names, Solution);
    var hw := map["01" := "hw01.pdf", "02" := "ps02.pdf", "03" := "hw03.pdf"];
    var sol := map["01" := "hw01_sol.pdf", "02" := "sol02.pdf"];
    var keys := ["01", "02", "03"];
    assert Increasing(keys);
    assert hw.Keys + sol.Keys == {"01", "02", "03"};
    SortIsReference(hw.Keys + sol.Keys, keys);
    ExamplePairs(hw, sol);
  }

  /** The pairs loop over the example's keys: "03" has no solution and is skipped. */
  lemma ExamplePairs(hw: map<string, string>, sol: map<string, string>)
    requires hw == map["01" := "hw01.pdf", "02" := "ps02.pdf", "03" := "hw03.pdf"]
    requires sol == map["01" := "hw01_sol.pdf", "02" := "sol02.pdf"]
    ensures PairsFor(["01", "02", "03"], hw, sol) == [("hw01.pdf", "hw01_sol.pdf"), ("ps02.pdf", "sol02.pdf")]
  {
    var keys := ["01", "02", "03"];
    assert keys[..2][..1] == ["01"] && keys[..2] == ["01", "02"] && keys[..1][..0] == [];
    assert "03"[1] != "01"[1] && "03"[1] != "02"[1];
    assert Emits("01", hw, sol) && Emits("02", hw, sol) && !Emits("03", hw, sol);
    assert PairsFor(["01"], hw, sol) == [("hw01.pdf", "hw01_sol.pdf")];
    assert PairsFor(["01", "02"], hw, sol) == [("hw01.pdf", "hw01_sol.pdf"), ("ps02.pdf", "sol02.pdf")];
  }

  /** The classifications of ["hw1.pdf", "soln1_extra.pdf"]: both carry the padded key "01". */
  lemma PaddedClassifications(names: seq<string>)
    requires names == ["hw1.pdf", "soln1_extra.pdf"]
    ensures Classifications(names) == [Some(Classification(Problem, "01")), Some(Classification(Solution, "01"))]
  {
    ClassifyPaddedHomeworkExample(names[0]);
    ClassifyPaddedSolutionExample(names[1]);
  }

  /**
   * Example: "hw1.pdf" and "soln1_extra.pdf" are paired, a one-digit problem number meeting a
   * one-digit solution number under the key "01" and the trailing "_extra" absorbed by `.*`.
   */
  lemma PaddedBatchExample(names: seq<string>)
    requires names == ["hw1.pdf", "soln1_extra.pdf"]
    ensures Batches(names) == [("hw1.pdf", "soln1_extra.pdf")]
  {
    PaddedClassifications(names);
    var p, q := Some(Classification(Problem, "01")), Some(Classification(Solution, "01"));
    assert [] + ["hw1.pdf"] == ["hw1.pdf"] && [] + [p] == [p];
    assert ["hw1.pdf"] + ["soln1_extra.pdf"] == names && [p] + [q] == [p, q];
    forall role: Role
      ensures RoleMap(names, role) == if role == Problem then map["01" := "hw1.pdf"] else map["01" := "soln1_extra.pdf"]
    {
      FillSnoc([], [], role, "hw1.pdf", p);
      FillSnoc(["hw1.pdf"], [p], role, "soln1_extra.pdf", q);
    }
    var hw, sol := map["01" := "hw1.pdf"], map["01" := "soln1_extra.pdf"];
    assert Increasing(["01"]);
    assert hw.Keys + sol.Keys == {"01"};
    SortIsReference(hw.Keys + sol.Keys, ["01"]);
    assert ["01"][..0] == [];
    assert Emits("01", hw, sol);
  }
}
