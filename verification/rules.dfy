/**
  The rewrite-rule engine of src/program.rs: an ordered table of
  (pattern, replacement) rules and a mode.  The table is stably sorted by a
  mode-dependent key, in `Decompress` mode every replacement is normalised, and
  `eval` rewrites its input greedily with the first rule, in table order, whose
  pattern is a prefix of what is left.

  `eval` and `normalize_rhs` call each other and may never return.  The model
  gives them a `fuel` bound on that nesting and answers `None` where the
  original program would loop forever: when no pattern prefixes the remaining
  input, when the first match is the empty pattern, and when the nesting
  exceeds the fuel.
 */
module Rules {
  import opened Text

  datatype Mode = Compress | Decompress

  // ---------------------------------------------------------------------------
  // Sorting (src/program.rs:27-32)
  // ---------------------------------------------------------------------------

  /** The sort key: ascending replacement length in `Compress` mode,
      descending pattern length in `Decompress` mode. */
  function Key(mode: Mode, r: Rule): int {
    match mode
    case Compress => |r.1|
    case Decompress => -|r.0|
  }

  /** Keys never decrease along the table. */
  predicate Ordered(mode: Mode, t: seq<Rule>) {
    forall i, j :: 0 <= i < j < |t| ==> Key(mode, t[i]) <= Key(mode, t[j])
  }

  /** The rules of `t` whose key is `v`, in their order in `t`. */
  function WithKey(mode: Mode, t: seq<Rule>, v: int): seq<Rule> {
    if t == [] then []
    else (if Key(mode, t[0]) == v then [t[0]] else []) + WithKey(mode, t[1..], v)
  }

  /** How many leading rules of `t` have a key not above `k`. */
  function InsertPoint(mode: Mode, t: seq<Rule>, k: int): (n: nat)
    ensures n <= |t|
    ensures forall i :: 0 <= i < n ==> Key(mode, t[i]) <= k
    ensures n < |t| ==> Key(mode, t[n]) > k
  {
    if t == [] || Key(mode, t[0]) > k then 0 else 1 + InsertPoint(mode, t[1..], k)
  }

  /** `x` placed after every rule whose key is not above its own. */
  function Insert(mode: Mode, t: seq<Rule>, x: Rule): seq<Rule> {
    var n := InsertPoint(mode, t, Key(mode, x));
    t[..n] + [x] + t[n..]
  }

  /** The stable sort of `t` by `Key(mode, _)`. */
  function StableSort(mode: Mode, t: seq<Rule>): (r: seq<Rule>)
    ensures |r| == |t|
  {
    if t == [] then [] else Insert(mode, StableSort(mode, t[..|t| - 1]), t[|t| - 1])
  }

  lemma {:induction false} WithKeyAppend(mode: Mode, a: seq<Rule>, b: seq<Rule>, v: int)
    ensures WithKey(mode, a + b, v) == WithKey(mode, a, v) + WithKey(mode, b, v)
  {
    if a == [] {
      assert a + b == b;
    } else {
      var ab := a + b;
      assert ab != [] && ab[0] == a[0] && ab[1..] == a[1..] + b;
      WithKeyAppend(mode, a[1..], b, v);
      var head := if Key(mode, a[0]) == v then [a[0]] else [];
      assert WithKey(mode, ab, v) == head + WithKey(mode, a[1..] + b, v);
      assert WithKey(mode, a, v) == head + WithKey(mode, a[1..], v);
    }
  }

  lemma {:induction false} WithKeyNone(mode: Mode, t: seq<Rule>, v: int)
    requires forall i :: 0 <= i < |t| ==> Key(mode, t[i]) != v
    ensures WithKey(mode, t, v) == []
  {
    if t != [] {
      WithKeyNone(mode, t[1..], v);
    }
  }

  lemma {:induction false} InsertOrdered(mode: Mode, t: seq<Rule>, x: Rule)
    requires Ordered(mode, t)
    ensures Ordered(mode, Insert(mode, t, x))
  {
    var n := InsertPoint(mode, t, Key(mode, x));
    var r := Insert(mode, t, x);
    forall i | n <= i < |t| ensures Key(mode, t[i]) > Key(mode, x) {
      assert Key(mode, t[n]) <= Key(mode, t[i]) || i == n;
    }
    forall i, j | 0 <= i < j < |r| ensures Key(mode, r[i]) <= Key(mode, r[j]) {
      if j < n {
        assert r[i] == t[i] && r[j] == t[j];
      } else if j == n {
        assert r[j] == x && r[i] == t[i];
      } else if i < n {
        assert r[i] == t[i] && r[j] == t[j - 1];
      } else if i == n {
        assert r[i] == x && r[j] == t[j - 1];
      } else {
        assert r[i] == t[i - 1] && r[j] == t[j - 1];
      }
    }
  }

  lemma {:induction false} WithKeyAround(mode: Mode, pre: seq<Rule>, x: Rule, post: seq<Rule>, v: int)
    ensures WithKey(mode, pre + [x] + post, v)
            == WithKey(mode, pre, v) + (if Key(mode, x) == v then [x] else []) + WithKey(mode, post, v)
  {
    WithKeyAppend(mode, pre + [x], post, v);
    WithKeyAppend(mode, pre, [x], v);
    assert WithKey(mode, [x], v) == (if Key(mode, x) == v then [x] else []) + WithKey(mode, [], v);
  }

  lemma {:induction false} InsertStable(mode: Mode, t: seq<Rule>, x: Rule, v: int)
    requires Ordered(mode, t)
    ensures WithKey(mode, Insert(mode, t, x), v)
            == WithKey(mode, t, v) + (if Key(mode, x) == v then [x] else [])
  {
    var n := InsertPoint(mode, t, Key(mode, x));
    var pre, post := t[..n], t[n..];
    var mid: seq<Rule> := if Key(mode, x) == v then [x] else [];
    WithKeyAround(mode, pre, x, post, v);
    assert t == pre + post;
    WithKeyAppend(mode, pre, post, v);
    if Key(mode, x) == v {
      AboveInsertPoint(mode, t, Key(mode, x));
      WithKeyNone(mode, post, v);
      assert WithKey(mode, post, v) == [];
    }
    StableSplice(WithKey(mode, pre, v), mid, WithKey(mode, post, v));
  }

  /** Moving a piece that is empty whenever the other is not. */
  lemma StableSplice(a: seq<Rule>, m: seq<Rule>, b: seq<Rule>)
    requires m == [] || b == []
    ensures a + m + b == (a + b) + m
  {
    if m == [] {
      assert a + m == a;
    } else {
      assert a + m + b == a + m;
      assert a + b == a;
    }
  }

  lemma {:induction false} AboveInsertPoint(mode: Mode, t: seq<Rule>, k: int)
    requires Ordered(mode, t)
    ensures forall i :: 0 <= i < |t[InsertPoint(mode, t, k)..]| ==> Key(mode, t[InsertPoint(mode, t, k)..][i]) > k
  {
    var n := InsertPoint(mode, t, k);
    forall i | 0 <= i < |t[n..]| ensures Key(mode, t[n..][i]) > k {
      assert t[n..][i] == t[n + i];
      if i > 0 {
        assert Key(mode, t[n]) <= Key(mode, t[n + i]);
      }
    }
  }

  lemma InsertPerm(mode: Mode, t: seq<Rule>, x: Rule)
    ensures multiset(Insert(mode, t, x)) == multiset(t) + multiset{x}
  {
    var n := InsertPoint(mode, t, Key(mode, x));
    assert t == t[..n] + t[n..];
  }

  lemma WithKeySingle(mode: Mode, x: Rule, v: int)
    ensures WithKey(mode, [x], v) == if Key(mode, x) == v then [x] else []
  {
    assert WithKey(mode, [x], v) == (if Key(mode, x) == v then [x] else []) + WithKey(mode, [], v);
  }

  /** The table after the constructor's sort: ordered by the key, a
      permutation of the input, and rules with equal keys keep their input
      order (the sort is stable). */
  lemma {:induction false} StableSortCorrect(mode: Mode, t: seq<Rule>)
    ensures Ordered(mode, StableSort(mode, t))
    ensures multiset(StableSort(mode, t)) == multiset(t)
    ensures forall v :: WithKey(mode, StableSort(mode, t), v) == WithKey(mode, t, v)
  {
    if t != [] {
      var init, x := t[..|t| - 1], t[|t| - 1];
      assert t == init + [x];
      StableSortCorrect(mode, init);
      var sorted := StableSort(mode, init);
      InsertOrdered(mode, sorted, x);
      InsertPerm(mode, sorted, x);
      forall v ensures WithKey(mode, StableSort(mode, t), v) == WithKey(mode, t, v) {
        InsertStable(mode, sorted, x, v);
        WithKeyAppend(mode, init, [x], v);
        WithKeySingle(mode, x, v);
      }
    }
  }

  /** In `Compress` mode the sorted table has non-decreasing replacement
      lengths; in `Decompress` mode non-increasing pattern lengths. */
  lemma SortOrderByMode(mode: Mode, t: seq<Rule>)
    ensures mode == Compress ==>
      forall i, j :: 0 <= i < j < |t| ==> |StableSort(mode, t)[i].1| <= |StableSort(mode, t)[j].1|
    ensures mode == Decompress ==>
      forall i, j :: 0 <= i < j < |t| ==> |StableSort(mode, t)[i].0| >= |StableSort(mode, t)[j].0|
  {
    StableSortCorrect(mode, t);
  }

  /** The example of the repository's own test: `"00"` is tried before `"0"`. */
  lemma DecompressSortExample()
    ensures StableSort(Decompress, [("0", "abra"), ("00", "cad")]) == [("00", "cad"), ("0", "abra")]
  {
    var t: seq<Rule> := [("0", "abra"), ("00", "cad")];
    assert t[..1] == [("0", "abra")];
    assert StableSort(Decompress, t[..1]) == [("0", "abra")];
  }

  // ---------------------------------------------------------------------------
  // Evaluation and normalisation (src/program.rs:34-95)
  // ---------------------------------------------------------------------------

  /** Index of the first rule, in table order, whose pattern is a prefix of
      `s`; `|rules|` when there is none. */
  function FirstMatch(rules: seq<Rule>, s: string): (k: nat)
    ensures k <= |rules|
    ensures forall j :: 0 <= j < k ==> !(rules[j].0 <= s)
    ensures k < |rules| ==> rules[k].0 <= s
  {
    if rules == [] then 0
    else if rules[0].0 <= s then 0
    else 1 + FirstMatch(rules[1..], s)
  }

  /** True when `eval` is stuck on a non-empty remainder `s`: no pattern is a
      prefix of it, or the first one that is, is empty.  The original loop
      then spins forever. */
  predicate Stuck(rules: seq<Rule>, s: string) {
    var k := FirstMatch(rules, s);
    k == |rules| || rules[k].0 == []
  }

  /** The rules `eval` applies to `s`, in order: the greedy left-to-right
      parse by first match.  `None` when the scan gets stuck. */
  function Scan(rules: seq<Rule>, s: string): Option<seq<Rule>>
    decreases |s|
  {
    if s == [] then Some([])
    else if Stuck(rules, s) then None
    else
      var r := rules[FirstMatch(rules, s)];
      match Scan(rules, s[|r.0|..])
      case None => None
      case Some(rs) => Some([r] + rs)
  }

  /** Length of the run of `0`/`1` characters at the start of `s`. */
  function BitRun(s: string): (n: nat)
    ensures n <= |s|
    ensures BitsOnly(s[..n])
    ensures n < |s| ==> !IsBit(s[n])
  {
    if s != [] && IsBit(s[0]) then 1 + BitRun(s[1..]) else 0
  }

  /** `eval`: rewrite `s` greedily; each step appends the replacement of the
      first matching rule (normalised in `Decompress` mode). */
  function Rewrite(rules: seq<Rule>, mode: Mode, s: string, fuel: nat): Option<string>
    decreases fuel, 1, |s|
  {
    if s == [] then Some([])
    else if Stuck(rules, s) then None
    else
      var r := rules[FirstMatch(rules, s)];
      var out := match mode
        case Compress => Some(r.1)
        case Decompress => Normalize(rules, mode, r.1, fuel);
      match out
      case None => None
      case Some(o) => Prepend(o, Rewrite(rules, mode, s[|r.0|..], fuel))
  }

  /** `normalize_rhs`: copy every character other than `0`/`1`; replace each
      maximal run of `0`/`1` by the normalisation of its evaluation.  The
      nested evaluation and normalisation cost one unit of fuel. */
  function Normalize(rules: seq<Rule>, mode: Mode, rhs: string, fuel: nat): Option<string>
    decreases fuel, 0, |rhs|
  {
    if rhs == [] then Some([])
    else if !IsBit(rhs[0]) then Prepend([rhs[0]], Normalize(rules, mode, rhs[1..], fuel))
    else if fuel == 0 then None
    else
      var n := BitRun(rhs);
      match Rewrite(rules, mode, rhs[..n], fuel - 1)
      case None => None
      case Some(e) =>
        match Normalize(rules, mode, e, fuel - 1)
        case None => None
        case Some(norm) => Prepend(norm, Normalize(rules, mode, rhs[n..], fuel))
  }

  lemma NormalizeLiteralStep(rules: seq<Rule>, mode: Mode, rhs: string, i: nat, fuel: nat)
    requires i < |rhs| && !IsBit(rhs[i])
    ensures Normalize(rules, mode, rhs[i..], fuel) == Prepend([rhs[i]], Normalize(rules, mode, rhs[i + 1..], fuel))
  {
    assert rhs[i..][1..] == rhs[i + 1..];
  }

  /** The run found by scanning `0`/`1` characters from `i` up to `j`
      is the one `BitRun` measures. */
  lemma NormalizeRunStep(rules: seq<Rule>, mode: Mode, rhs: string, i: nat, j: nat, fuel: nat)
    requires i < j <= |rhs| && fuel > 0
    requires BitsOnly(rhs[i..j]) && (j == |rhs| || !IsBit(rhs[j]))
    ensures Normalize(rules, mode, rhs[i..], fuel)
            == match Rewrite(rules, mode, rhs[i..j], fuel - 1)
               case None => None
               case Some(e) =>
                 match Normalize(rules, mode, e, fuel - 1)
                 case None => None
                 case Some(norm) => Prepend(norm, Normalize(rules, mode, rhs[j..], fuel))
  {
    var x := rhs[i..];
    var n := BitRun(x);
    assert IsBit(x[0]) by {
      assert x[0] == rhs[i..j][0];
    }
    forall k | 0 <= k < j - i ensures IsBit(x[k]) {
      assert x[k] == rhs[i..j][k];
    }
    forall k | 0 <= k < n ensures IsBit(x[k]) {
      assert x[..n][k] == x[k];
    }
    assert j - i < |x| ==> x[j - i] == rhs[j];
    assert n == j - i;
    assert x[..n] == rhs[i..j];
    assert x[n..] == rhs[j..];
  }

  /** `normalize_intrs` from position `pos` on: each replacement is
      overwritten by its normalisation against the table as it stands, that
      is, with the earlier replacements already overwritten. */
  function NormalizeFrom(t: seq<Rule>, mode: Mode, pos: nat, fuel: nat): Option<seq<Rule>>
    decreases |t| - pos
  {
    if pos >= |t| then Some(t)
    else
      match Normalize(t, mode, t[pos].1, fuel)
      case None => None
      case Some(s) => NormalizeFrom(t[pos := (t[pos].0, s)], mode, pos + 1, fuel)
  }

  /** The table `Program::new` ends with. */
  function Build(rules: seq<Rule>, mode: Mode, fuel: nat): Option<seq<Rule>> {
    var sorted := StableSort(mode, rules);
    match mode
    case Compress => Some(sorted)
    case Decompress => NormalizeFrom(sorted, mode, 0, fuel)
  }

  // ---------------------------------------------------------------------------
  // Properties of normalisation
  // ---------------------------------------------------------------------------

  /** Whenever `normalize_rhs` returns, its result has no `0` or `1`. */
  lemma {:induction false} NormalizeNoBits(rules: seq<Rule>, mode: Mode, rhs: string, fuel: nat)
    requires Normalize(rules, mode, rhs, fuel).Some?
    ensures NoBits(Normalize(rules, mode, rhs, fuel).value)
    decreases fuel, |rhs|
  {
    if rhs != [] {
      if !IsBit(rhs[0]) {
        NormalizeNoBits(rules, mode, rhs[1..], fuel);
      } else {
        var n := BitRun(rhs);
        var e := Rewrite(rules, mode, rhs[..n], fuel - 1).value;
        NormalizeNoBits(rules, mode, e, fuel - 1);
        NormalizeNoBits(rules, mode, rhs[n..], fuel);
      }
    }
  }

  /** A text without `0`/`1` is returned unchanged, whatever the fuel. */
  lemma {:induction false} NormalizeIdentity(rules: seq<Rule>, mode: Mode, rhs: string, fuel: nat)
    requires NoBits(rhs)
    ensures Normalize(rules, mode, rhs, fuel) == Some(rhs)
    decreases |rhs|
  {
    if rhs != [] {
      assert !IsBit(rhs[0]);
      NormalizeIdentity(rules, mode, rhs[1..], fuel);
      assert [rhs[0]] + rhs[1..] == rhs;
    }
  }

  /** Normalising twice equals normalising once. */
  lemma NormalizeIdempotent(rules: seq<Rule>, mode: Mode, rhs: string, fuel: nat, fuel': nat)
    requires Normalize(rules, mode, rhs, fuel).Some?
    ensures Normalize(rules, mode, Normalize(rules, mode, rhs, fuel).value, fuel')
            == Normalize(rules, mode, rhs, fuel)
  {
    NormalizeNoBits(rules, mode, rhs, fuel);
    NormalizeIdentity(rules, mode, Normalize(rules, mode, rhs, fuel).value, fuel');
  }

  /** More fuel never changes an answer that was already reached. */
  lemma {:induction false} RewriteFuel(rules: seq<Rule>, mode: Mode, s: string, fuel: nat, fuel': nat)
    requires fuel <= fuel' && Rewrite(rules, mode, s, fuel).Some?
    ensures Rewrite(rules, mode, s, fuel') == Rewrite(rules, mode, s, fuel)
    decreases fuel, 1, |s|
  {
    if s != [] {
      var r := rules[FirstMatch(rules, s)];
      if mode == Decompress {
        NormalizeFuel(rules, mode, r.1, fuel, fuel');
      }
      RewriteFuel(rules, mode, s[|r.0|..], fuel, fuel');
    }
  }

  lemma {:induction false} NormalizeFuel(rules: seq<Rule>, mode: Mode, rhs: string, fuel: nat, fuel': nat)
    requires fuel <= fuel' && Normalize(rules, mode, rhs, fuel).Some?
    ensures Normalize(rules, mode, rhs, fuel') == Normalize(rules, mode, rhs, fuel)
    decreases fuel, 0, |rhs|
  {
    if rhs != [] {
      if !IsBit(rhs[0]) {
        NormalizeFuel(rules, mode, rhs[1..], fuel, fuel');
      } else {
        var n := BitRun(rhs);
        assert fuel > 0 && Rewrite(rules, mode, rhs[..n], fuel - 1).Some?;
        var e := Rewrite(rules, mode, rhs[..n], fuel - 1).value;
        assert Normalize(rules, mode, e, fuel - 1).Some?;
        var norm := Normalize(rules, mode, e, fuel - 1).value;
        assert Normalize(rules, mode, rhs, fuel) == Prepend(norm, Normalize(rules, mode, rhs[n..], fuel));
        RewriteFuel(rules, mode, rhs[..n], fuel - 1, fuel' - 1);
        NormalizeFuel(rules, mode, e, fuel - 1, fuel' - 1);
        NormalizeFuel(rules, mode, rhs[n..], fuel, fuel');
      }
    }
  }

  /** `normalize_intrs` keeps the rule count, the order and every pattern,
      leaves the entries before `pos` alone, and leaves no `0`/`1` in the
      replacements from `pos` on. */
  lemma {:induction false} NormalizeFromShape(t: seq<Rule>, mode: Mode, pos: nat, fuel: nat)
    requires NormalizeFrom(t, mode, pos, fuel).Some?
    ensures |NormalizeFrom(t, mode, pos, fuel).value| == |t|
    ensures forall i :: 0 <= i < |t| ==> NormalizeFrom(t, mode, pos, fuel).value[i].0 == t[i].0
    ensures forall i :: 0 <= i < pos && i < |t| ==> NormalizeFrom(t, mode, pos, fuel).value[i] == t[i]
    ensures forall i :: pos <= i < |t| ==> NoBits(NormalizeFrom(t, mode, pos, fuel).value[i].1)
    decreases |t| - pos
  {
    if pos < |t| {
      var s := Normalize(t, mode, t[pos].1, fuel).value;
      NormalizeNoBits(t, mode, t[pos].1, fuel);
      NormalizeFromShape(t[pos := (t[pos].0, s)], mode, pos + 1, fuel);
    }
  }

  /** A table whose replacements from `pos` on are already free of `0`/`1`
      is left exactly as it is. */
  lemma {:induction false} NormalizeFromFixed(t: seq<Rule>, mode: Mode, pos: nat, fuel: nat)
    requires forall i :: pos <= i < |t| ==> NoBits(t[i].1)
    ensures NormalizeFrom(t, mode, pos, fuel) == Some(t)
    decreases |t| - pos
  {
    if pos < |t| {
      NormalizeIdentity(t, mode, t[pos].1, fuel);
      assert t[pos := (t[pos].0, t[pos].1)] == t;
      NormalizeFromFixed(t, mode, pos + 1, fuel);
    }
  }

  /** Normalising a normalised table changes nothing. */
  lemma NormalizeTableIdempotent(t: seq<Rule>, mode: Mode, fuel: nat, fuel': nat)
    requires NormalizeFrom(t, mode, 0, fuel).Some?
    ensures NormalizeFrom(NormalizeFrom(t, mode, 0, fuel).value, mode, 0, fuel') == NormalizeFrom(t, mode, 0, fuel)
  {
    NormalizeFromShape(t, mode, 0, fuel);
    NormalizeFromFixed(NormalizeFrom(t, mode, 0, fuel).value, mode, 0, fuel');
  }

  /** What `Program::new` builds: in `Compress` mode the sorted table; in
      `Decompress` mode the sorted table with the same patterns in the same
      order and normalised replacements, unchanged where they had no `0`/`1`. */
  lemma BuildFacts(rules: seq<Rule>, mode: Mode, fuel: nat)
    ensures mode == Compress ==> Build(rules, mode, fuel) == Some(StableSort(mode, rules))
    ensures mode == Decompress && Build(rules, mode, fuel).Some? ==>
      var t, u := StableSort(mode, rules), Build(rules, mode, fuel).value;
      && |u| == |rules|
      && (forall i :: 0 <= i < |u| ==> u[i].0 == t[i].0 && NoBits(u[i].1))
    ensures mode == Decompress && (forall r :: r in rules ==> NoBits(r.1)) ==>
      Build(rules, mode, fuel) == Some(StableSort(mode, rules))
  {
    var t := StableSort(mode, rules);
    if mode == Decompress {
      if NormalizeFrom(t, mode, 0, fuel).Some? {
        NormalizeFromShape(t, mode, 0, fuel);
      }
      if forall r :: r in rules ==> NoBits(r.1) {
        StableSortCorrect(mode, rules);
        forall i | 0 <= i < |t| ensures NoBits(t[i].1) {
          assert t[i] in multiset(t);
        }
        NormalizeFromFixed(t, mode, 0, fuel);
      }
    }
  }

  // ---------------------------------------------------------------------------
  // Properties of evaluation
  // ---------------------------------------------------------------------------

  /** What one applied rule contributes to the output. */
  function Output(rules: seq<Rule>, mode: Mode, r: Rule, fuel: nat): Option<string> {
    match mode
    case Compress => Some(r.1)
    case Decompress => Normalize(rules, mode, r.1, fuel)
  }

  /** One step of `eval` on a remainder where it is not stuck. */
  lemma RewriteStep(rules: seq<Rule>, mode: Mode, s: string, fuel: nat)
    requires s != [] && !Stuck(rules, s)
    ensures var r := rules[FirstMatch(rules, s)];
      Rewrite(rules, mode, s, fuel)
      == match Output(rules, mode, r, fuel)
         case None => None
         case Some(o) => Prepend(o, Rewrite(rules, mode, s[|r.0|..], fuel))
  {
  }

  /** The contributions of the applied rules `rs`, concatenated. */
  function Outputs(rules: seq<Rule>, mode: Mode, rs: seq<Rule>, fuel: nat): Option<string> {
    if rs == [] then Some([])
    else
      match Output(rules, mode, rs[0], fuel)
      case None => None
      case Some(o) => Prepend(o, Outputs(rules, mode, rs[1..], fuel))
  }

  /** The greedy scan consumes the whole input: the patterns of the applied
      rules, none of them empty, concatenate back to `s`, and each applied
      rule is the first in table order whose pattern prefixes what was left
      at that step. */
  lemma ScanConsumes(rules: seq<Rule>, s: string)
    requires Scan(rules, s).Some?
    ensures Patterns(Scan(rules, s).value) == s
    ensures forall i :: 0 <= i < |Scan(rules, s).value| ==>
      var rs := Scan(rules, s).value;
      && rs[i] in rules && rs[i].0 != []
      && rs[i] == rules[FirstMatch(rules, Patterns(rs[i..]))]
  {
    ScanPatterns(rules, s);
    ScanSteps(rules, s);
  }

  /** One step of a scan that succeeds on a non-empty remainder. */
  lemma ScanCons(rules: seq<Rule>, s: string)
    requires s != [] && Scan(rules, s).Some?
    ensures !Stuck(rules, s)
    ensures var r := rules[FirstMatch(rules, s)];
      && s == r.0 + s[|r.0|..]
      && Scan(rules, s[|r.0|..]).Some?
      && Scan(rules, s).value == [r] + Scan(rules, s[|r.0|..]).value
  {
  }

  lemma {:induction false} ScanPatterns(rules: seq<Rule>, s: string)
    requires Scan(rules, s).Some?
    ensures Patterns(Scan(rules, s).value) == s
    decreases |s|
  {
    if s != [] {
      ScanCons(rules, s);
      var r := rules[FirstMatch(rules, s)];
      var rest := s[|r.0|..];
      ScanPatterns(rules, rest);
      var rs := Scan(rules, s).value;
      assert rs[0] == r && rs[1..] == Scan(rules, rest).value;
    }
  }

  lemma {:induction false} ScanSteps(rules: seq<Rule>, s: string)
    requires Scan(rules, s).Some?
    ensures forall i :: 0 <= i < |Scan(rules, s).value| ==>
      var rs := Scan(rules, s).value;
      && rs[i] in rules && rs[i].0 != []
      && rs[i] == rules[FirstMatch(rules, Patterns(rs[i..]))]
    decreases |s|
  {
    if s != [] {
      ScanCons(rules, s);
      var r := rules[FirstMatch(rules, s)];
      var rest := s[|r.0|..];
      ScanSteps(rules, rest);
      ScanPatterns(rules, s);
      var rs := Scan(rules, s).value;
      var tail := Scan(rules, rest).value;
      forall i | 0 <= i < |rs|
        ensures rs[i] in rules && rs[i].0 != [] && rs[i] == rules[FirstMatch(rules, Patterns(rs[i..]))]
      {
        if i == 0 {
          assert rs[0..] == rs;
        } else {
          assert rs[i..] == tail[i - 1..];
          assert rs[i] == tail[i - 1];
        }
      }
    }
  }

  /** `eval` returns exactly when its greedy scan does not get stuck and
      every applied replacement could be produced; the output is then the
      concatenation of those replacements (normalised in `Decompress` mode).
      In particular `eval("")` is `""`. */
  lemma {:induction false} RewriteIsScan(rules: seq<Rule>, mode: Mode, s: string, fuel: nat)
    ensures Rewrite(rules, mode, s, fuel)
            == match Scan(rules, s)
               case None => None
               case Some(rs) => Outputs(rules, mode, rs, fuel)
    decreases |s|
  {
    if s != [] && !Stuck(rules, s) {
      var r := rules[FirstMatch(rules, s)];
      RewriteIsScan(rules, mode, s[|r.0|..], fuel);
      if Scan(rules, s[|r.0|..]).Some? {
        var rs := [r] + Scan(rules, s[|r.0|..]).value;
        assert rs[1..] == Scan(rules, s[|r.0|..]).value;
      }
    }
  }

  /** In `Compress` mode the output is the concatenation of the applied
      rules' replacements. */
  lemma {:induction false} CompressOutputs(rules: seq<Rule>, rs: seq<Rule>, fuel: nat)
    ensures Outputs(rules, Compress, rs, fuel) == Some(Replacements(rs))
  {
    if rs != [] {
      CompressOutputs(rules, rs[1..], fuel);
    }
  }

  /** In `Decompress` mode, over replacements that carry no `0`/`1`, the
      output is the concatenation of the applied replacements themselves. */
  lemma {:induction false} DecompressOutputsPlain(rules: seq<Rule>, rs: seq<Rule>, fuel: nat)
    requires forall i :: 0 <= i < |rs| ==> NoBits(rs[i].1)
    ensures Outputs(rules, Decompress, rs, fuel) == Some(Replacements(rs))
  {
    if rs != [] {
      NormalizeIdentity(rules, Decompress, rs[0].1, fuel);
      DecompressOutputsPlain(rules, rs[1..], fuel);
    }
  }

  /** A remainder on which `eval` makes no progress is a failure. */
  lemma RewriteStuck(rules: seq<Rule>, mode: Mode, s: string, fuel: nat)
    requires s != [] && Stuck(rules, s)
    ensures Rewrite(rules, mode, s, fuel) == None
    ensures Scan(rules, s) == None
  {
  }

  /** No two different rules of the table have patterns one of which is a
      prefix of the other (a prefix-free code, possibly listed twice). */
  predicate PrefixFree(rules: seq<Rule>) {
    forall x, y :: x in rules && y in rules && x.0 <= y.0 ==> x == y
  }

  lemma PrefixesOfSame(a: string, b: string, s: string)
    requires a <= s && b <= s
    ensures a <= b || b <= a
  {
    if |a| <= |b| {
      assert b[..|a|] == s[..|a|];
    } else {
      assert a[..|b|] == s[..|b|];
    }
  }

  /** Over a prefix-free table of non-empty patterns, the greedy scan of a
      concatenation of patterns recovers exactly the rules concatenated. */
  lemma {:induction false} ScanUnique(rules: seq<Rule>, rs: seq<Rule>)
    requires PrefixFree(rules)
    requires forall i :: 0 <= i < |rs| ==> rs[i] in rules && rs[i].0 != []
    ensures Scan(rules, Patterns(rs)) == Some(rs)
  {
    if rs != [] {
      var x, tail := rs[0], Patterns(rs[1..]);
      assert Patterns(rs) == x.0 + tail;
      FirstMatchOfPattern(rules, x, tail);
      assert (x.0 + tail)[|x.0|..] == tail;
      ScanUnique(rules, rs[1..]);
      assert [x] + rs[1..] == rs;
    }
  }

  /** In a prefix-free table, the first match on a text that starts with
      the non-empty pattern of a rule is that rule. */
  lemma FirstMatchOfPattern(rules: seq<Rule>, x: Rule, tail: string)
    requires PrefixFree(rules) && x in rules && x.0 != []
    ensures !Stuck(rules, x.0 + tail) && rules[FirstMatch(rules, x.0 + tail)] == x
  {
    var s := x.0 + tail;
    assert x.0 <= s;
    var m :| 0 <= m < |rules| && rules[m] == x;
    var k := FirstMatch(rules, s);
    assert k <= m;
    PrefixesOfSame(rules[k].0, x.0, s);
  }

  // ---------------------------------------------------------------------------
  // The program object (src/program.rs:7-96)
  // ---------------------------------------------------------------------------

  /** `Program`: the rule table, which the construction reorders and
      rewrites in place, and the mode. */
  class Program {
    var instr: seq<Rule>
    const mode: Mode

    /** The struct literal at the start of `Program::new`. */
    constructor (instr: seq<Rule>, mode: Mode)
      ensures this.instr == instr && this.mode == mode
    {
      this.instr := instr;
      this.mode := mode;
    }

    /** `sort`: stable sort of the table by the mode's key. */
    method Sort()
      modifies this
      ensures instr == StableSort(mode, old(instr))
    {
      var t := instr;
      var sorted: seq<Rule> := [];
      for i := 0 to |t|
        invariant sorted == StableSort(mode, t[..i])
      {
        assert t[..i + 1][..i] == t[..i];
        sorted := InsertSorted(mode, sorted, t[i]);
      }
      assert t[..|t|] == t;
      instr := sorted;
    }

    /** `normalize_rhs`, against the current table. */
    method NormalizeRhs(rhs: string, fuel: nat) returns (r: Option<string>)
      ensures r == Normalize(instr, mode, rhs, fuel)
      decreases fuel, 0, 1
    {
      var rules := instr;
      var ans := "";
      var i := 0;
      assert rhs[0..] == rhs;
      PrependEmpty(Normalize(rules, mode, rhs, fuel));
      while i < |rhs|
        invariant 0 <= i <= |rhs|
        invariant Normalize(rules, mode, rhs, fuel) == Prepend(ans, Normalize(rules, mode, rhs[i..], fuel))
      {
        var c := rhs[i];
        if c == '0' || c == '1' {
          var norm, j := NormalizeRun(rhs, i, fuel);
          if norm.None? {
            return None;
          }
          PrependTwice(ans, norm.value, Normalize(rules, mode, rhs[j..], fuel));
          ans := ans + norm.value;
          i := j;
        } else {
          NormalizeLiteralStep(rules, mode, rhs, i, fuel);
          PrependTwice(ans, [c], Normalize(rules, mode, rhs[i + 1..], fuel));
          ans := ans + [c];
          i := i + 1;
        }
      }
      assert rhs[i..] == [];
      assert ans + [] == ans;
      r := Some(ans);
    }

    /** One bit run of `normalize_rhs`: collect the run starting at
        `start`, evaluate it, normalise the result.  `norm` is what the run
        contributes and `j` where the run ends. */
    method NormalizeRun(rhs: string, start: nat, fuel: nat) returns (norm: Option<string>, j: nat)
      requires start < |rhs| && IsBit(rhs[start])
      ensures start < j <= |rhs|
      ensures norm.None? ==> Normalize(instr, mode, rhs[start..], fuel) == None
      ensures norm.Some? ==>
        Normalize(instr, mode, rhs[start..], fuel) == Prepend(norm.value, Normalize(instr, mode, rhs[j..], fuel))
      decreases fuel, 0, 0
    {
      var tmp;
      tmp, j := CollectBits(rhs, start);
      if fuel == 0 {
        assert rhs[start..][0] == rhs[start];
        return None, j;
      }
      NormalizeRunStep(instr, mode, rhs, start, j, fuel);
      var e := Eval(tmp, fuel - 1);
      if e.None? {
        return None, j;
      }
      norm := NormalizeRhs(e.value, fuel - 1);
    }

    /** `normalize_intrs`: walk a copy of the table and overwrite each
        replacement with its normalisation against the table as updated so
        far.  `false` where the original would never return. */
    method NormalizeInstrs(fuel: nat) returns (ok: bool)
      modifies this
      ensures ok <==> NormalizeFrom(old(instr), mode, 0, fuel).Some?
      ensures ok ==> instr == NormalizeFrom(old(instr), mode, 0, fuel).value
    {
      var snapshot := instr;
      for pos := 0 to |snapshot|
        invariant |instr| == |snapshot|
        invariant forall i :: pos <= i < |instr| ==> instr[i] == snapshot[i]
        invariant NormalizeFrom(old(instr), mode, 0, fuel) == NormalizeFrom(instr, mode, pos, fuel)
      {
        var (key, rhs) := snapshot[pos];
        var s := NormalizeRhs(rhs, fuel);
        if s.None? {
          return false;
        }
        instr := instr[pos := (key, s.value)];
      }
      ok := true;
    }

    /** `eval`: greedy first-match rewriting of `s`.  `None` where the
        original loops forever. */
    method Eval(s: string, fuel: nat) returns (r: Option<string>)
      ensures r == Rewrite(instr, mode, s, fuel)
      decreases fuel, 1
    {
      var answer := "";
      var rest := s;
      PrependEmpty(Rewrite(instr, mode, s, fuel));
      while rest != []
        invariant Rewrite(instr, mode, s, fuel) == Prepend(answer, Rewrite(instr, mode, rest, fuel))
        decreases |rest|
      {
        var k := FindRule(instr, rest);
        if k == |instr| || instr[k].0 == [] {
          return None;
        }
        var out := Apply(instr[k], fuel);
        EvalAdvance(instr, mode, s, rest, answer, out, fuel);
        if out.None? {
          return None;
        }
        answer := answer + out.value;
        rest := rest[|instr[k].0|..];
      }
      assert answer + [] == answer;
      r := Some(answer);
    }

    /** What applying `rule` appends: its replacement, normalised in
        `Decompress` mode. */
    method Apply(rule: Rule, fuel: nat) returns (out: Option<string>)
      ensures out == Output(instr, mode, rule, fuel)
      decreases fuel, 0, 2
    {
      match mode {
        case Compress =>
          out := Some(rule.1);
        case Decompress =>
          out := NormalizeRhs(rule.1, fuel);
      }
    }
  }

  /** The loop of `eval` after applying the first match on `rest`. */
  lemma EvalAdvance(rules: seq<Rule>, mode: Mode, s: string, rest: string, answer: string, out: Option<string>, fuel: nat)
    requires rest != [] && !Stuck(rules, rest)
    requires Rewrite(rules, mode, s, fuel) == Prepend(answer, Rewrite(rules, mode, rest, fuel))
    requires out == Output(rules, mode, rules[FirstMatch(rules, rest)], fuel)
    ensures out.None? ==> Rewrite(rules, mode, s, fuel) == None
    ensures out.Some? ==>
      var key := rules[FirstMatch(rules, rest)].0;
      Rewrite(rules, mode, s, fuel) == Prepend(answer + out.value, Rewrite(rules, mode, rest[|key|..], fuel))
  {
    RewriteStep(rules, mode, rest, fuel);
    if out.Some? {
      var key := rules[FirstMatch(rules, rest)].0;
      PrependTwice(answer, out.value, Rewrite(rules, mode, rest[|key|..], fuel));
    }
  }

  /** The inner `for` over the table: the first rule whose pattern prefixes `s`. */
  method FindRule(table: seq<Rule>, s: string) returns (k: nat)
    ensures k == FirstMatch(table, s)
  {
    k := 0;
    while k < |table| && !(table[k].0 <= s)
      invariant 0 <= k <= |table|
      invariant forall j :: 0 <= j < k ==> !(table[j].0 <= s)
    {
      k := k + 1;
    }
  }

  /** The inner loop of `normalize_rhs`: gather the maximal run of `0`/`1`
      characters that starts at `i`. */
  method CollectBits(rhs: string, i: nat) returns (tmp: string, j: nat)
    requires i < |rhs| && IsBit(rhs[i])
    ensures i < j <= |rhs| && tmp == rhs[i..j]
    ensures BitsOnly(tmp) && (j == |rhs| || !IsBit(rhs[j]))
  {
    tmp, j := "", i;
    while j < |rhs| && (rhs[j] == '0' || rhs[j] == '1')
      invariant i <= j <= |rhs|
      invariant tmp == rhs[i..j] && BitsOnly(tmp)
    {
      tmp := tmp + [rhs[j]];
      j := j + 1;
    }
  }

  /** One step of the sort: the position after the last rule whose key is
      not above that of `x`, found by a linear scan, and `x` placed there. */
  method InsertSorted(mode: Mode, sorted: seq<Rule>, x: Rule) returns (r: seq<Rule>)
    ensures r == Insert(mode, sorted, x)
  {
    var k := Key(mode, x);
    var j := 0;
    while j < |sorted| && Key(mode, sorted[j]) <= k
      invariant 0 <= j <= |sorted|
      invariant InsertPoint(mode, sorted, k) == j + InsertPoint(mode, sorted[j..], k)
    {
      InsertPointSkip(mode, sorted, k, j);
      j := j + 1;
    }
    if j < |sorted| {
      assert sorted[j..][0] == sorted[j];
    }
    r := sorted[..j] + [x] + sorted[j..];
  }

  /** A rule whose key is not above `k` is passed over. */
  lemma InsertPointSkip(mode: Mode, t: seq<Rule>, k: int, j: nat)
    requires j < |t| && Key(mode, t[j]) <= k
    ensures InsertPoint(mode, t[j..], k) == 1 + InsertPoint(mode, t[j + 1..], k)
  {
    assert t[j..][0] == t[j] && t[j..][1..] == t[j + 1..];
  }

  /** `Program::new`: store, sort, and in `Decompress` mode normalise.
      `ok` is false where the original would never return. */
  method New(rules: seq<Rule>, mode: Mode, fuel: nat) returns (p: Program, ok: bool)
    ensures fresh(p) && p.mode == mode
    ensures ok <==> Build(rules, mode, fuel).Some?
    ensures ok ==> p.instr == Build(rules, mode, fuel).value
  {
    p := new Program(rules, mode);
    p.Sort();
    ok := true;
    if mode == Decompress {
      ok := p.NormalizeInstrs(fuel);
    }
  }
}
