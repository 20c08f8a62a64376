/**
  The two-pass compressor of src/compression.rs: `simplify_huff`, `compress`,
  `display` and `compress_word`, and the round trip through the decompressor
  of src/bin/exo1.rs.

  `HashMap` and `HashSet` iteration order is not fixed in the original, so
  the operations that enumerate one pick an arbitrary order and are
  specified for every order.  Where the original would loop forever or
  panic, the result is `None`.
 */
module Compression {
  import opened Text
  import opened Rules
  import opened Huffman
  import opened Decompression

  /** `Compressed`: the bitstring and the rule table (pattern, code) it was
      encoded with. */
  datatype Compressed = Compressed(compressed: string, code: seq<Rule>)

  /** A usable code table: every code is a non-empty string of bits, and no
      code is a prefix of another rule's code (so patterns and codes are in
      one-to-one correspondence). */
  predicate CodeOk(t: seq<Rule>) {
    && (forall x :: x in t ==> x.1 != [] && BitsOnly(x.1))
    && (forall x, y :: x in t && y in t && x.1 <= y.1 ==> x == y)
  }

  /** What a successful `compress(init, _)` delivers: a usable code table and
      the bitstring its greedy scan of `init` produces. */
  predicate Encodes(c: Compressed, init: string) {
    && CodeOk(c.code)
    && Scan(c.code, init).Some?
    && c.compressed == Replacements(Scan(c.code, init).value)
  }

  // ---------------------------------------------------------------------------
  // Enumerating hash containers
  // ---------------------------------------------------------------------------

  /** `map.iter().collect()`: the pairs of `m`, each once, in some order. */
  method MapEntries(m: map<string, string>) returns (v: seq<Rule>)
    ensures |v| == |m|
    ensures forall x :: x in v <==> x.0 in m && m[x.0] == x.1
    ensures forall i, j :: 0 <= i < j < |v| ==> v[i].0 != v[j].0
  {
    v := [];
    var keys := m.Keys;
    while keys != {}
      invariant keys <= m.Keys
      invariant |v| + |keys| == |m|
      invariant forall x :: x in v <==> x.0 in m && x.0 !in keys && m[x.0] == x.1
      invariant forall i, j :: 0 <= i < j < |v| ==> v[i].0 != v[j].0
      decreases keys
    {
      var k :| k in keys;
      v := v + [(k, m[k])];
      keys := keys - {k};
    }
  }

  /** `set.iter().collect()`: the elements of `s`, each once, in some order. */
  method SetEntries(s: set<Rule>) returns (v: seq<Rule>)
    ensures |v| == |s|
    ensures forall x :: x in v <==> x in s
  {
    v := [];
    var left := s;
    while left != {}
      invariant left <= s
      invariant |v| + |left| == |s|
      invariant forall x :: x in v <==> x in s && x !in left
      decreases left
    {
      var x :| x in left;
      v := v + [x];
      left := left - {x};
    }
  }

  // ---------------------------------------------------------------------------
  // simplify_huff (src/compression.rs:154-173)
  // ---------------------------------------------------------------------------

  /** The length of the longest code in `t`; 0 for an empty table. */
  function MaxCodeLen(t: seq<Rule>): (n: nat)
    ensures forall x :: x in t ==> |x.1| <= n
    ensures t != [] ==> exists x :: x in t && |x.1| == n
  {
    if t == [] then 0
    else
      var m := MaxCodeLen(t[1..]);
      assert forall x :: x in t[1..] ==> x in t;
      if |t[0].1| >= m then |t[0].1| else m
  }

  /** The weights `simplify_huff` gives: each pattern weighs the longest
      code length minus the length of its code (the later code when a
      pattern repeats). */
  function Reweight(t: seq<Rule>, maxLen: nat): map<string, int> {
    map p | p in ToMap(t) :: maxLen - |ToMap(t)[p]|
  }

  lemma ReweightStep(t: seq<Rule>, x: Rule, maxLen: nat)
    ensures Reweight(t + [x], maxLen) == Reweight(t, maxLen)[x.0 := maxLen - |x.1|]
  {
    assert (t + [x])[..|t|] == t;
    assert ToMap(t + [x]) == ToMap(t)[x.0 := x.1];
  }

  /** The patterns of the table are the keys, and a longer code gives a
      lower weight, never below 0: the weight of each pattern is `maxLen`
      minus the length of one of its codes. */
  lemma ReweightFacts(t: seq<Rule>)
    ensures forall p :: p in Reweight(t, MaxCodeLen(t)) <==> exists x :: x in t && x.0 == p
    ensures forall p :: p in Reweight(t, MaxCodeLen(t)) ==>
      0 <= Reweight(t, MaxCodeLen(t))[p] <= MaxCodeLen(t)
      && exists x :: x in t && x.0 == p && Reweight(t, MaxCodeLen(t))[p] == MaxCodeLen(t) - |x.1|
    ensures (forall x, y :: x in t && y in t && x.0 == y.0 ==> x == y) ==>
      forall x :: x in t ==> x.0 in Reweight(t, MaxCodeLen(t)) && Reweight(t, MaxCodeLen(t))[x.0] == MaxCodeLen(t) - |x.1|
  {
    ReweightKeys(t);
    ReweightValues(t);
    if forall x, y :: x in t && y in t && x.0 == y.0 ==> x == y {
      ReweightUnique(t);
    }
  }

  lemma ReweightKeys(t: seq<Rule>)
    ensures forall p :: p in Reweight(t, MaxCodeLen(t)) <==> exists x :: x in t && x.0 == p
  {
    ToMapFacts(t);
    var w := Reweight(t, MaxCodeLen(t));
    forall p ensures p in w <==> exists x :: x in t && x.0 == p {
      if exists x :: x in t && x.0 == p {
        var x :| x in t && x.0 == p;
        var i :| 0 <= i < |t| && t[i] == x;
        assert t[i].0 == p;
      }
    }
  }

  lemma ReweightValues(t: seq<Rule>)
    ensures forall p :: p in Reweight(t, MaxCodeLen(t)) ==>
      0 <= Reweight(t, MaxCodeLen(t))[p] <= MaxCodeLen(t)
      && exists x :: x in t && x.0 == p && Reweight(t, MaxCodeLen(t))[p] == MaxCodeLen(t) - |x.1|
  {
    ToMapFacts(t);
    var w := Reweight(t, MaxCodeLen(t));
    forall p | p in w
      ensures 0 <= w[p] <= MaxCodeLen(t) && exists x :: x in t && x.0 == p && w[p] == MaxCodeLen(t) - |x.1|
    {
      var i :| 0 <= i < |t| && t[i] == (p, ToMap(t)[p]);
      assert t[i] in t;
    }
  }

  /** The loop of `simplify_huff` that fills the weight map: each pattern
      weighs `maxLen` minus the length of its code, the last entry for a
      pattern winning. */
  method ReweightTable(instr: seq<Rule>, maxLen: nat) returns (hash: map<string, int>)
    ensures hash == Reweight(instr, maxLen)
  {
    hash := map[];
    for i := 0 to |instr|
      invariant hash == Reweight(instr[..i], maxLen)
    {
      var (value, key) := instr[i];
      assert instr[..i + 1] == instr[..i] + [instr[i]];
      ReweightStep(instr[..i], instr[i], maxLen);
      hash := hash[value := maxLen - |key|];
    }
    assert instr[..|instr|] == instr;
  }

  /** `simplify_huff`: weigh each pattern by how much shorter its code is
      than the longest one, build a Huffman tree over those weights and
      return its code table, sorted by code length.  `None` for an empty
      table (the `max` of no lengths is unwrapped). */
  method SimplifyHuff(instr: seq<Rule>) returns (r: Option<seq<Rule>>, ghost tree: Tree)
    ensures r.None? <==> instr == []
    ensures r.Some? ==> CodeOk(r.value) && Ordered(Compress, r.value)
    ensures r.Some? ==> forall x :: x in r.value <==> x.0 in CodeTable(tree) && CodeTable(tree)[x.0] == x.1
    ensures r.Some? ==> |r.value| == |CodeTable(tree)|
    ensures r.Some? ==> forall p :: p in CodeTable(tree) <==> exists x :: x in instr && x.0 == p
    ensures r.Some? ==>
      var w := Reweight(instr, MaxCodeLen(instr));
      multiset(Leaves(tree)) == multiset(w.Keys) && LeftLighter(tree, w)
  {
    if instr == [] {
      return None, Leaf([]);
    }
    var hash := ReweightTable(instr, MaxCodeLen(instr));
    ReweightFacts(instr);
    assert instr[0] in instr;
    assert instr[0].0 in hash;
    var node := BuildTree(hash);
    tree := node.value;
    var binding := EvalHuffmanTree(node.value);
    var vec := MapEntries(binding);
    var prog, _ := New(vec, Compress, 0);
    r := Some(prog.instr);
    SimplifyHuffTable(instr, tree, vec, prog.instr);
  }

  lemma SimplifyHuffTable(instr: seq<Rule>, tree: Tree, vec: seq<Rule>, table: seq<Rule>)
    requires multiset(Leaves(tree)) == multiset(Reweight(instr, MaxCodeLen(instr)).Keys)
    requires forall x :: x in vec <==> x.0 in CodeTable(tree) && CodeTable(tree)[x.0] == x.1
    requires |vec| == |CodeTable(tree)|
    requires Build(vec, Compress, 0) == Some(table)
    ensures CodeOk(table) && Ordered(Compress, table)
    ensures |table| == |CodeTable(tree)|
    ensures forall x :: x in table <==> x.0 in CodeTable(tree) && CodeTable(tree)[x.0] == x.1
    ensures forall p :: p in CodeTable(tree) <==> exists x :: x in instr && x.0 == p
  {
    BuildFacts(vec, Compress, 0);
    StableSortCorrect(Compress, vec);
    SameMembers(table, vec);
    TableOfTree(tree, table);
    TreeKeys(instr, tree);
  }

  lemma SameMembers(a: seq<Rule>, b: seq<Rule>)
    requires multiset(a) == multiset(b)
    ensures forall x :: x in a <==> x in b
  {
    forall x ensures x in a <==> x in b {
      assert x in a <==> x in multiset(a);
      assert x in b <==> x in multiset(b);
    }
  }

  /** A table listing exactly the pairs of a tree's code table is usable. */
  lemma TableOfTree(tree: Tree, table: seq<Rule>)
    requires forall x :: x in table <==> x.0 in CodeTable(tree) && CodeTable(tree)[x.0] == x.1
    ensures CodeOk(table)
  {
    CodeTableFacts(tree);
  }

  lemma TreeKeys(instr: seq<Rule>, tree: Tree)
    requires multiset(Leaves(tree)) == multiset(Reweight(instr, MaxCodeLen(instr)).Keys)
    ensures forall p :: p in CodeTable(tree) <==> exists x :: x in instr && x.0 == p
  {
    CodeTableFacts(tree);
    ReweightFacts(instr);
    forall p ensures p in CodeTable(tree) <==> exists x :: x in instr && x.0 == p {
      assert p in Leaves(tree) <==> p in multiset(Leaves(tree));
      assert p in Reweight(instr, MaxCodeLen(instr)).Keys <==> p in multiset(Reweight(instr, MaxCodeLen(instr)).Keys);
    }
  }

  // ---------------------------------------------------------------------------
  // compress (src/compression.rs:189-234)
  // ---------------------------------------------------------------------------

  /** A successful compression consumes `init` exactly: the scanned patterns
      concatenate to it, and the bitstring is made of bits, non-empty when
      `init` is. */
  lemma EncodedFacts(c: Compressed, init: string)
    requires Encodes(c, init)
    ensures Patterns(Scan(c.code, init).value) == init
    ensures BitsOnly(c.compressed)
    ensures init != [] ==> c.compressed != []
  {
    ScanConsumes(c.code, init);
    EncodedBits(c.code, Scan(c.code, init).value);
  }

  /** Some rule of `t` has pattern `p`. */
  predicate HasPattern(t: seq<Rule>, p: string) {
    exists x :: x in t && x.0 == p
  }

  /** `code` is the table `simplify_huff` builds over the rules `used`:
      each pattern of `used` weighs the longest code length minus the
      length of its code, `tree` is a Huffman tree over those weights, and
      `code` lists each (pattern, code) pair of the tree's code table once,
      sorted by code length. */
  ghost predicate HuffmanCode(code: seq<Rule>, tree: Tree, used: seq<Rule>) {
    var w := Reweight(used, MaxCodeLen(used));
    && (forall p :: p in w <==> HasPattern(used, p))
    && (forall x :: x in used ==> x.0 in w && w[x.0] == MaxCodeLen(used) - |x.1|)
    && multiset(Leaves(tree)) == multiset(w.Keys) && LeftLighter(tree, w)
    && (forall x :: x in code <==> x.0 in CodeTable(tree) && CodeTable(tree)[x.0] == x.1)
    && |code| == |CodeTable(tree)|
    && Ordered(Compress, code)
  }

  /** The second table of `compress`, built over the rules `used` that
      pass 1 applied with the map `result`: a usable Huffman code whose
      patterns are exactly the patterns of `used`, all non-empty keys of
      `result`. */
  ghost predicate SecondPass(result: map<string, string>, used: seq<Rule>, code: seq<Rule>, tree: Tree) {
    && CodeOk(code) && HuffmanCode(code, tree, used)
    && (forall x :: x in code ==> x.0 in result && x.0 != [])
    && (forall p :: HasPattern(code, p) <==> HasPattern(used, p))
  }

  /** What `compress(init, result)` does, seen from outside.  `pass1` is
      the first table: the map's pairs sorted by code length.  `code` is the
      table `simplify_huff` builds from the rules pass 1 used, with `tree`
      its Huffman tree: a usable code over exactly their patterns.
      Compression succeeds exactly when `init` is non-empty, pass 1 gets
      through it, and the greedy scan with `code` gets through it as well;
      it then returns `code` and that scan's bitstring. */
  ghost predicate Compresses(init: string, result: map<string, string>, pass1: seq<Rule>, code: seq<Rule>, tree: Tree, c: Option<Compressed>) {
    && (forall x :: x in pass1 <==> x.0 in result && result[x.0] == x.1)
    && Ordered(Compress, pass1)
    && (init == [] || Scan(pass1, init).None? ==> c.None?)
    && (init != [] && Scan(pass1, init).Some? ==>
          && SecondPass(result, Scan(pass1, init).value, code, tree)
          && (c.Some? <==> Scan(code, init).Some?))
    && (c.Some? ==> c.value.code == code && Encodes(c.value, init))
  }

  /** Pass 1 of `compress`: scan `init` greedily and collect the rules used
      into a set.  `None` where the scan repeats forever. */
  method CollectHits(table: seq<Rule>, init: string) returns (hits: Option<set<Rule>>)
    ensures hits.Some? <==> Scan(table, init).Some?
    ensures hits.Some? ==> hits.value == set x | x in Scan(table, init).value
  {
    var rest := init;
    var hitCount: set<Rule> := {};
    ghost var used: seq<Rule> := [];
    PrependEmpty(Scan(table, init));
    while rest != []
      invariant Scan(table, init) == Prepend(used, Scan(table, rest))
      invariant hitCount == set x | x in used
      decreases |rest|
    {
      var k := FindRule(table, rest);
      if k == |table| || table[k].0 == [] {
        return None;
      }
      PrependTwice(used, [table[k]], Scan(table, rest[|table[k].0|..]));
      hitCount := hitCount + {table[k]};
      used := used + [table[k]];
      rest := rest[|table[k].0|..];
    }
    assert used + [] == used;
    hits := Some(hitCount);
  }

  /** Pass 2 of `compress`: scan `init` greedily and concatenate the codes.
      `None` where the scan repeats forever. */
  method Encode(code: seq<Rule>, init: string) returns (answer: Option<string>)
    ensures answer.Some? <==> Scan(code, init).Some?
    ensures answer.Some? ==> answer.value == Replacements(Scan(code, init).value)
  {
    var initCopy := init;
    var out := "";
    PrependEmpty(Rewrite(code, Compress, init, 0));
    while initCopy != []
      invariant Rewrite(code, Compress, init, 0) == Prepend(out, Rewrite(code, Compress, initCopy, 0))
      decreases |initCopy|
    {
      var k := FindRule(code, initCopy);
      if k == |code| || code[k].0 == [] {
        RewriteStuck(code, Compress, initCopy, 0);
        CompressIsScan(code, init);
        return None;
      }
      RewriteStep(code, Compress, initCopy, 0);
      PrependTwice(out, code[k].1, Rewrite(code, Compress, initCopy[|code[k].0|..], 0));
      out := out + code[k].1;
      initCopy := initCopy[|code[k].0|..];
    }
    assert out + [] == out;
    CompressIsScan(code, init);
    answer := Some(out);
  }

  /** In `Compress` mode, `eval` succeeds exactly when the scan does, and
      returns the codes of the scanned rules. */
  lemma CompressIsScan(code: seq<Rule>, s: string)
    ensures Rewrite(code, Compress, s, 0).Some? <==> Scan(code, s).Some?
    ensures Scan(code, s).Some? ==> Rewrite(code, Compress, s, 0).value == Replacements(Scan(code, s).value)
  {
    RewriteIsScan(code, Compress, s, 0);
    if Scan(code, s).Some? {
      CompressOutputs(code, Scan(code, s).value, 0);
    }
  }

  /** `compress`: pass 1 scans `init` with the given codes sorted by length
      and records the rules it uses; `simplify_huff` builds a fresh Huffman
      code over the used patterns; pass 2 scans `init` again with that code
      and concatenates the codes.  `pass1` is the first table (the map's
      pairs in the order the sort left them).  `None` where the original
      never returns (a scan that finds no rule, or whose first match is the
      empty pattern, repeats forever) or panics (nothing to encode). */
  method CompressString(init: string, result: map<string, string>)
    returns (c: Option<Compressed>, ghost pass1: seq<Rule>, ghost code: seq<Rule>, ghost tree: Tree)
    ensures init == [] ==> c.None?
    ensures c.Some? ==> Encodes(c.value, init)
    ensures Compresses(init, result, pass1, code, tree, c)
  {
    var table := FirstTable(result);
    pass1 := table;

    code, tree := [], Leaf([]);
    var hitCount := CollectHits(table, init);
    if hitCount.None? {
      return None, pass1, code, tree;
    }
    ghost var used := Scan(table, init).value;
    ScanConsumes(table, init);
    UsedSomething(table, init);
    UsedUnique(result, table, used);
    var newProg, t := SecondTable(hitCount.value, used);
    if newProg.None? {
      return None, pass1, code, tree;
    }
    var huff := newProg.value;
    code, tree := huff, t;
    SecondPassFacts(result, table, used, code, tree);
    var answer := Encode(huff, init);
    if answer.None? {
      return None, pass1, code, tree;
    }
    c := Some(Compressed(answer.value, huff));
  }

  /** The hit set listed and sorted, then `simplify_huff` on that table:
      the Huffman code over the rules pass 1 used.  `None` when there are
      none (the `max` of no lengths is unwrapped). */
  method SecondTable(hits: set<Rule>, ghost used: seq<Rule>) returns (r: Option<seq<Rule>>, ghost tree: Tree)
    requires hits == set x | x in used
    requires forall x, y :: x in used && y in used && x.0 == y.0 ==> x == y
    ensures r.None? <==> used == []
    ensures r.Some? ==> CodeOk(r.value) && HuffmanCode(r.value, tree, used)
  {
    var hit := SetEntries(hits);
    var instr := SortedTable(hit);
    if used != [] {
      assert used[0] in hits;
    }
    r, tree := SimplifyHuff(instr);
    if r.Some? {
      SameWeights(instr, used);
      HuffmanCodeOver(r.value, tree, used);
    }
  }

  /** The facts `SimplifyHuff` gives about a table, restated over the used
      rules it was built from. */
  lemma HuffmanCodeOver(code: seq<Rule>, tree: Tree, used: seq<Rule>)
    requires forall x, y :: x in used && y in used && x.0 == y.0 ==> x == y
    requires Ordered(Compress, code)
    requires forall x :: x in code <==> x.0 in CodeTable(tree) && CodeTable(tree)[x.0] == x.1
    requires |code| == |CodeTable(tree)|
    requires
      var w := Reweight(used, MaxCodeLen(used));
      multiset(Leaves(tree)) == multiset(w.Keys) && LeftLighter(tree, w)
    ensures HuffmanCode(code, tree, used)
  {
    var w := Reweight(used, MaxCodeLen(used));
    assert forall p :: p in w <==> HasPattern(used, p) by {
      ReweightKeys(used);
    }
    ReweightUnique(used);
  }

  /** When no two rules share a pattern, each rule's pattern weighs exactly
      `maxLen` minus the length of its own code. */
  lemma ReweightUnique(t: seq<Rule>)
    requires forall x, y :: x in t && y in t && x.0 == y.0 ==> x == y
    ensures forall x :: x in t ==> x.0 in Reweight(t, MaxCodeLen(t)) && Reweight(t, MaxCodeLen(t))[x.0] == MaxCodeLen(t) - |x.1|
  {
    var w := Reweight(t, MaxCodeLen(t));
    ReweightKeys(t);
    ReweightValues(t);
    forall x | x in t ensures x.0 in w && w[x.0] == MaxCodeLen(t) - |x.1| {
      assert x.0 in w;
      var y :| y in t && y.0 == x.0 && w[x.0] == MaxCodeLen(t) - |y.1|;
    }
  }

  /** Two tables with the same rules, each pattern with one code, get the
      same weights. */
  lemma SameWeights(a: seq<Rule>, b: seq<Rule>)
    requires forall x :: x in a <==> x in b
    requires forall x, y :: x in b && y in b && x.0 == y.0 ==> x == y
    ensures Reweight(a, MaxCodeLen(a)) == Reweight(b, MaxCodeLen(b))
  {
    SameMaxLen(a, b);
    SameMap(a, b);
  }

  /** Two tables with the same rules, each pattern with one code, read as
      the same map. */
  lemma SameMap(a: seq<Rule>, b: seq<Rule>)
    requires forall x :: x in a <==> x in b
    requires forall x, y :: x in b && y in b && x.0 == y.0 ==> x == y
    ensures ToMap(a) == ToMap(b)
  {
    SameMapKeys(a, b);
    forall k | k in ToMap(a) ensures ToMap(a)[k] == ToMap(b)[k] {
      SameMapAt(a, b, k);
    }
  }

  lemma SameMapKeys(a: seq<Rule>, b: seq<Rule>)
    requires forall x :: x in a <==> x in b
    ensures ToMap(a).Keys == ToMap(b).Keys
  {
    ToMapFacts(a);
    ToMapFacts(b);
    forall k ensures k in ToMap(a) <==> k in ToMap(b) {
      if k in ToMap(a) {
        var i :| 0 <= i < |a| && a[i].0 == k;
        assert a[i] in b;
      }
      if k in ToMap(b) {
        var j :| 0 <= j < |b| && b[j].0 == k;
        assert b[j] in a;
      }
    }
  }

  lemma SameMapAt(a: seq<Rule>, b: seq<Rule>, k: string)
    requires forall x :: x in a <==> x in b
    requires forall x, y :: x in b && y in b && x.0 == y.0 ==> x == y
    requires k in ToMap(a) && k in ToMap(b)
    ensures ToMap(a)[k] == ToMap(b)[k]
  {
    ToMapFacts(a);
    ToMapFacts(b);
    var i :| 0 <= i < |a| && a[i] == (k, ToMap(a)[k]);
    var j :| 0 <= j < |b| && b[j] == (k, ToMap(b)[k]);
    assert a[i] in b;
    assert b[j] in b;
  }

  lemma SameMaxLen(a: seq<Rule>, b: seq<Rule>)
    requires forall x :: x in a <==> x in b
    ensures MaxCodeLen(a) == MaxCodeLen(b)
  {
  }

  /** The rules pass 1 uses come from a map, so no two share a pattern. */
  lemma UsedUnique(result: map<string, string>, table: seq<Rule>, used: seq<Rule>)
    requires forall x :: x in table <==> x.0 in result && result[x.0] == x.1
    requires forall i :: 0 <= i < |used| ==> used[i] in table
    ensures forall x, y :: x in used && y in used && x.0 == y.0 ==> x == y
  {
  }

  /** `Program::new(entries, Mode::Compress).instr`: the same rules, sorted
      by code length. */
  method SortedTable(entries: seq<Rule>) returns (table: seq<Rule>)
    ensures |table| == |entries|
    ensures forall x :: x in table <==> x in entries
    ensures Ordered(Compress, table)
  {
    var prog, _ := New(entries, Compress, 0);
    table := prog.instr;
    BuildFacts(entries, Compress, 0);
    StableSortCorrect(Compress, entries);
    SameMembers(table, entries);
  }

  /** The first table of `compress`: the map's pairs, sorted by code
      length. */
  method FirstTable(result: map<string, string>) returns (table: seq<Rule>)
    ensures forall x :: x in table <==> x.0 in result && result[x.0] == x.1
    ensures Ordered(Compress, table)
  {
    var tmp := MapEntries(result);
    table := SortedTable(tmp);
  }

  /** A successful scan of a non-empty text applies at least one rule. */
  lemma UsedSomething(table: seq<Rule>, init: string)
    requires Scan(table, init).Some?
    ensures init != [] ==> Scan(table, init).value != []
  {
  }

  /** The Huffman code over the rules pass 1 used is a second table for
      `result`: its patterns are exactly the non-empty patterns pass 1
      used, all of them keys of the map. */
  lemma SecondPassFacts(result: map<string, string>, table: seq<Rule>, used: seq<Rule>, code: seq<Rule>, tree: Tree)
    requires forall x :: x in table <==> x.0 in result && result[x.0] == x.1
    requires forall i :: 0 <= i < |used| ==> used[i] in table && used[i].0 != []
    requires CodeOk(code) && HuffmanCode(code, tree, used)
    ensures SecondPass(result, used, code, tree)
  {
    assert multiset(Leaves(tree)) == multiset(Reweight(used, MaxCodeLen(used)).Keys);
    TreeKeys(used, tree);
    CodePatterns(result, table, used, code, tree);
  }

  lemma CodePatterns(result: map<string, string>, table: seq<Rule>, used: seq<Rule>, code: seq<Rule>, tree: Tree)
    requires forall x :: x in table <==> x.0 in result && result[x.0] == x.1
    requires forall i :: 0 <= i < |used| ==> used[i] in table && used[i].0 != []
    requires forall x :: x in code <==> x.0 in CodeTable(tree) && CodeTable(tree)[x.0] == x.1
    requires forall p :: p in CodeTable(tree) <==> exists x :: x in used && x.0 == p
    ensures forall x :: x in code ==> x.0 in result && x.0 != []
    ensures forall p :: HasPattern(code, p) <==> HasPattern(used, p)
  {
    forall x | x in code ensures x.0 in result && x.0 != [] {
      var y :| y in used && y.0 == x.0;
      var i :| 0 <= i < |used| && used[i] == y;
    }
    forall p ensures HasPattern(code, p) <==> HasPattern(used, p) {
      if HasPattern(used, p) {
        var y :| y in used && y.0 == p;
        assert p in CodeTable(tree);
        assert (p, CodeTable(tree)[p]) in code;
      }
      if HasPattern(code, p) {
        var x :| x in code && x.0 == p;
        var y :| y in used && y.0 == p;
      }
    }
  }

  // ---------------------------------------------------------------------------
  // display (src/compression.rs:235-245) and the round trip through the
  // decompressor of src/bin/exo1.rs
  // ---------------------------------------------------------------------------

  /** The line written for a rule: its code, `=`, its pattern. */
  function RuleLine(x: Rule): string {
    x.1 + "=" + x.0
  }

  /** The rule block: one line per rule, each ending in `\n`. */
  function Render(t: seq<Rule>): string {
    if t == [] then [] else RuleLine(t[0]) + "\n" + Render(t[1..])
  }

  /** The text `display` returns: the rule block, an empty line, the bitstring. */
  function Serialize(c: Compressed): string {
    Render(c.code) + "\n" + c.compressed
  }

  /** The lines of the rule block, one per rule. */
  function RuleLines(t: seq<Rule>): (ls: seq<string>)
    ensures |ls| == |t|
    ensures forall i :: 0 <= i < |t| ==> ls[i] == RuleLine(t[i])
  {
    if t == [] then [] else [RuleLine(t[0])] + RuleLines(t[1..])
  }

  /** A pattern that can be written on a line and read back as decoded text. */
  predicate Plain(p: string) {
    NoBits(p) && OneLine(p)
  }

  lemma RuleLineOneLine(x: Rule)
    requires BitsOnly(x.1) && OneLine(x.0)
    ensures OneLine(RuleLine(x)) && RuleLine(x) != []
  {
    var l := RuleLine(x);
    forall i | 0 <= i < |l| ensures l[i] != '\n' {
      if i < |x.1| {
        assert l[i] == x.1[i];
      } else if i > |x.1| {
        assert l[i] == x.0[i - |x.1| - 1];
      }
    }
    if x.0 != [] {
      assert l[|l| - 1] == x.0[|x.0| - 1];
    }
  }

  lemma {:induction false} LinesOfSerialized(t: seq<Rule>, comp: string)
    requires forall i :: 0 <= i < |t| ==> OneLine(RuleLine(t[i]))
    requires comp != [] && forall i :: 0 <= i < |comp| ==> comp[i] != '\n'
    ensures Lines(Render(t) + "\n" + comp) == RuleLines(t) + ["", comp]
  {
    if t == [] {
      assert Render(t) + "\n" + comp == "" + "\n" + comp;
      LinesCons("", comp);
      LinesLast(comp);
    } else {
      LinesOfSerialized(t[1..], comp);
      SerializedCons(t, comp);
      LinesCons(RuleLine(t[0]), Render(t[1..]) + "\n" + comp);
    }
  }

  /** The first rule's line, then the rest of the text. */
  lemma SerializedCons(t: seq<Rule>, comp: string)
    requires t != []
    ensures Render(t) + "\n" + comp == RuleLine(t[0]) + "\n" + (Render(t[1..]) + "\n" + comp)
    ensures RuleLines(t) + ["", comp] == [RuleLine(t[0])] + (RuleLines(t[1..]) + ["", comp])
  {
  }

  lemma {:induction false} ParseRuleLines(t: seq<Rule>, comp: string, i: nat, acc: seq<Rule>)
    requires i <= |t|
    requires forall j :: 0 <= j < |t| ==> RuleLine(t[j]) != [] && BitsOnly(t[j].1)
    ensures ParseFrom(RuleLines(t) + ["", comp], i, acc) == Some((acc + Swapped(t[i..]), comp))
    decreases |t| - i
  {
    var ls := RuleLines(t) + ["", comp];
    if i == |t| {
      assert ls[i] == [] && ls[i + 1] == comp;
      assert acc + Swapped(t[i..]) == acc;
    } else {
      assert ls[i] == RuleLine(t[i]);
      SplitOnceJoin(t[i].1, t[i].0);
      var sw := (t[i].1, t[i].0);
      ParseRuleLines(t, comp, i + 1, acc + [sw]);
      assert Swapped(t[i..]) == [sw] + Swapped(t[i + 1..]);
      assert acc + [sw] + Swapped(t[i + 1..]) == acc + Swapped(t[i..]);
    }
  }

  /** Reading back what `display` wrote gives the table with each rule turned
      into (code, pattern), and the bitstring. */
  lemma ParseSerialized(c: Compressed)
    requires CodeOk(c.code) && forall x :: x in c.code ==> OneLine(x.0)
    requires c.compressed != [] && BitsOnly(c.compressed)
    ensures Parse(Serialize(c)) == Some((Swapped(c.code), c.compressed))
  {
    forall i | 0 <= i < |c.code| ensures OneLine(RuleLine(c.code[i])) && RuleLine(c.code[i]) != [] {
      assert c.code[i] in c.code;
      RuleLineOneLine(c.code[i]);
    }
    assert forall i :: 0 <= i < |c.compressed| ==> c.compressed[i] != '\n';
    LinesOfSerialized(c.code, c.compressed);
    forall j | 0 <= j < |c.code| ensures BitsOnly(c.code[j].1) {
      assert c.code[j] in c.code;
    }
    ParseRuleLines(c.code, c.compressed, 0, []);
    assert c.code[0..] == c.code;
    assert [] + Swapped(c.code) == Swapped(c.code);
    assert Lines(Serialize(c)) == RuleLines(c.code) + ["", c.compressed];
  }

  lemma {:induction false} EncodedBits(code: seq<Rule>, rs: seq<Rule>)
    requires CodeOk(code) && forall i :: 0 <= i < |rs| ==> rs[i] in code
    ensures BitsOnly(Replacements(rs))
    ensures rs != [] ==> Replacements(rs) != []
  {
    if rs != [] {
      EncodedBits(code, rs[1..]);
      assert rs[0] in code;
    }
  }

  /** The table the decompressor builds from a written code: the swapped
      rules sorted longest code first, in which no code prefixes another. */
  lemma DecodeTable(code: seq<Rule>, fuel: nat)
    requires CodeOk(code) && forall x :: x in code ==> NoBits(x.0)
    ensures Build(Swapped(code), Decompress, fuel) == Some(StableSort(Decompress, Swapped(code)))
    ensures PrefixFree(StableSort(Decompress, Swapped(code)))
    ensures forall x :: x in code ==> (x.1, x.0) in StableSort(Decompress, Swapped(code))
  {
    var sw := Swapped(code);
    SwappedPlain(code);
    BuildFacts(sw, Decompress, fuel);
    var t := StableSort(Decompress, sw);
    StableSortCorrect(Decompress, sw);
    SameMembers(t, sw);
    SwappedPrefixFree(code, t);
  }

  lemma SwappedPlain(code: seq<Rule>)
    requires forall x :: x in code ==> NoBits(x.0)
    ensures forall r :: r in Swapped(code) ==> NoBits(r.1)
  {
    var sw := Swapped(code);
    forall r | r in sw ensures NoBits(r.1) {
      var i :| 0 <= i < |sw| && sw[i] == r;
      assert code[i] in code;
    }
  }

  /** Any table holding exactly the swapped rules of a usable code is
      prefix-free and holds each of them. */
  lemma SwappedPrefixFree(code: seq<Rule>, t: seq<Rule>)
    requires CodeOk(code)
    requires forall x :: x in t <==> x in Swapped(code)
    ensures PrefixFree(t)
    ensures forall x :: x in code ==> (x.1, x.0) in t
  {
    var sw := Swapped(code);
    forall x, y | x in t && y in t && x.0 <= y.0 ensures x == y {
      var i :| 0 <= i < |sw| && sw[i] == x;
      var j :| 0 <= j < |sw| && sw[j] == y;
      assert code[i] in code && code[j] in code;
    }
    forall x | x in code ensures (x.1, x.0) in t {
      var i :| 0 <= i < |code| && code[i] == x;
      assert sw[i] == (x.1, x.0);
    }
  }

  /** Round trip: decompressing the text `display` writes for a successful
      compression of a non-empty `init` gives back `init`, provided the
      patterns used hold no `0`/`1` (which the decompressor would decode
      again) and can be written on one line. */
  lemma RoundTrip(c: Compressed, init: string, fuel: nat)
    requires Encodes(c, init) && init != []
    requires forall x :: x in c.code ==> Plain(x.0)
    ensures DecompressText(Serialize(c), fuel) == Some(init)
  {
    EncodedFacts(c, init);
    ParseSerialized(c);
    DecodeTable(c.code, fuel);
    DecodeBits(c, init, fuel);
  }

  /** The decompressor's table turns the bitstring back into `init`: its
      greedy scan finds exactly the swapped rules the compressor applied. */
  lemma DecodeBits(c: Compressed, init: string, fuel: nat)
    requires Encodes(c, init)
    requires forall x :: x in c.code ==> NoBits(x.0)
    ensures Rewrite(StableSort(Decompress, Swapped(c.code)), Decompress, c.compressed, fuel) == Some(init)
  {
    var rs := Scan(c.code, init).value;
    ScanConsumes(c.code, init);
    DecodeTable(c.code, fuel);
    var t := StableSort(Decompress, Swapped(c.code));
    var srs := Swapped(rs);
    forall i | 0 <= i < |srs| ensures srs[i] in t && srs[i].0 != [] && NoBits(srs[i].1) {
      assert rs[i] in c.code;
    }
    ScanUnique(t, srs);
    SwappedPatterns(rs);
    RewriteIsScan(t, Decompress, c.compressed, fuel);
    DecompressOutputsPlain(t, srs, fuel);
  }

  /** `display`: compress, then write the rule block, an empty line and the
      bitstring.  The ghost results are those of the compression. */
  method Display(init: string, result: map<string, string>)
    returns (out: Option<string>, ghost pass1: seq<Rule>, ghost code: seq<Rule>, ghost tree: Tree, ghost c: Option<Compressed>)
    ensures Compresses(init, result, pass1, code, tree, c)
    ensures out.Some? <==> c.Some?
    ensures out.Some? ==> out.value == Serialize(c.value)
    ensures out.Some? && (forall p :: p in result ==> Plain(p)) ==>
      forall fuel: nat :: DecompressText(out.value, fuel) == Some(init)
  {
    var compressed;
    compressed, pass1, code, tree := CompressString(init, result);
    c := compressed;
    if compressed.None? {
      return None, pass1, code, tree, c;
    }
    out := Some(Serialize(compressed.value));
    if forall p :: p in result ==> Plain(p) {
      assert init != [] && Scan(pass1, init).Some?;
      forall fuel: nat ensures DecompressText(out.value, fuel) == Some(init) {
        RoundTrip(compressed.value, init, fuel);
      }
    }
  }

  // ---------------------------------------------------------------------------
  // compress_word (src/compression.rs:247-251)
  // ---------------------------------------------------------------------------

  /** A word with no `0`, `1`, `\n` or `\r`. */
  predicate PlainWord(word: string) {
    forall i :: 0 <= i < |word| ==> !IsBit(word[i]) && word[i] != '\n' && word[i] != '\r'
  }

  /** Every key `count_occ` makes from a plain word is a plain pattern: each
      is a character or a prefix of the word. */
  lemma CountKeysPlain(word: string)
    requires PlainWord(word)
    ensures forall p :: p in CountOccMap(word) ==> Plain(p)
  {
    CountOccFacts(word);
    forall p | p in CountOccMap(word) ensures Plain(p) {
      if exists c :: c in word && p == [c] {
        var c :| c in word && p == [c];
      } else {
        var i :| 0 <= i <= |word| / 4 && p == word[..i];
        assert forall j :: 0 <= j < |p| ==> p[j] == word[j];
      }
    }
  }

  /** `compress_word`: weigh the word with `count_occ`, build the Huffman
      tree of those weights, and `display` the word compressed with that
      tree's code table.  Decompressing the result gives the word back when
      the word holds no `0`, `1`, `\n` or `\r`. */
  method CompressWord(word: string)
    returns (out: Option<string>, ghost tree: Tree, ghost pass1: seq<Rule>, ghost code: seq<Rule>, ghost huff: Tree, ghost c: Option<Compressed>)
    ensures multiset(Leaves(tree)) == multiset(CountOccMap(word).Keys) && LeftLighter(tree, CountOccMap(word))
    ensures Compresses(word, CodeTable(tree), pass1, code, huff, c)
    ensures out.Some? <==> c.Some?
    ensures out.Some? ==> out.value == Serialize(c.value)
    ensures out.Some? && PlainWord(word) ==> forall fuel: nat :: DecompressText(out.value, fuel) == Some(word)
  {
    var counts := CountOcc(word);
    assert [] in counts.Keys;
    var node := BuildTree(counts);
    tree := node.value;
    var hash := EvalHuffmanTree(node.value);
    out, pass1, code, huff, c := Display(word, hash);
    if PlainWord(word) {
      CountKeysPlain(word);
      CodeTableFacts(node.value);
      forall p | p in hash ensures Plain(p) {
        assert p in multiset(Leaves(node.value));
        assert p in multiset(counts.Keys);
      }
    }
  }
}
