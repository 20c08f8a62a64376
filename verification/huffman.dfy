/**
  Weight counting and Huffman code construction of src/compression.rs:
  `count_occ`, the tree `Node`, the min-heap merge of `hash_to_huffman_tree`,
  and the path codes of `parcours_huffman_tree` / `eval_huffman_tree`.

  Map iteration order and the heap's choice among equal priorities are not
  fixed in the original, so the tree builder is specified for every valid
  choice: it may pop any entry of minimal priority.
 */
module Huffman {
  import opened Text

  // ---------------------------------------------------------------------------
  // count_occ (src/compression.rs:62-89)
  // ---------------------------------------------------------------------------

  /** Non-overlapping occurrences of a non-empty `p` in `s`, found left to right. */
  function Occurrences(s: string, p: string): nat
    requires p != []
    decreases |s|
  {
    if |s| < |p| then 0
    else if p <= s then 1 + Occurrences(s[|p|..], p)
    else Occurrences(s[1..], p)
  }

  /** The number of pieces `s.split(p)` yields: one more than the occurrences
      of a non-empty `p`; for the empty pattern, which matches at every
      character boundary of an ASCII `s`, `|s| + 2`. */
  function SplitCount(s: string, p: string): nat {
    if p == [] then |s| + 2 else Occurrences(s, p) + 1
  }

  /** The per-character update: a value at or above 30 is reset to 30,
      anything lower gains one. */
  function Bump(v: int): (r: int)
    ensures r <= 30
    ensures v < 30 ==> r == v + 1
    ensures v >= 30 ==> r == 30
  {
    if v >= 30 then 30 else v + 1
  }

  /** The update for one character `c`: bump its one-character key, or
      insert it with 1. */
  function CountChar(h: map<string, int>, c: char): map<string, int> {
    if [c] in h then h[[c] := Bump(h[[c]])] else h[[c] := 1]
  }

  /** The character loop over `cs`, in order. */
  function CharPass(h: map<string, int>, cs: string): map<string, int>
    decreases |cs|
  {
    if cs == [] then h else CountChar(CharPass(h, cs[..|cs| - 1]), cs[|cs| - 1])
  }

  /** The weight given to the prefix key `s[..i]`: pieces of the split times
      the prefix length, minus 10. */
  function PrefixWeight(s: string, i: nat): int
    requires i <= |s|
  {
    SplitCount(s, s[..i]) * i - 10
  }

  /** The map after the first `k` iterations of the outer loop. */
  function Rounds(s: string, k: nat): map<string, int>
    requires k <= |s| + 1
  {
    if k == 0 then map[]
    else
      var i := k - 1;
      CharPass(Rounds(s, i), s)[s[..i] := PrefixWeight(s, i)]
  }

  /** The map `count_occ(s)` returns. */
  function CountOccMap(s: string): map<string, int> {
    Rounds(s, |s| / 4 + 1)
  }

  /** The character loop adds a key for every character, caps those keys
      at 30, and leaves every other key alone. */
  lemma CharPassFacts(h: map<string, int>, cs: string)
    ensures CharPass(h, cs).Keys == h.Keys + set c | c in cs :: [c]
    ensures forall c :: c in cs ==> CharPass(h, cs)[[c]] <= 30
    ensures forall k :: k in h && (|k| != 1 || k[0] !in cs) ==> CharPass(h, cs)[k] == h[k]
  {
    CharPassKeys(h, cs);
    CharPassCapped(h, cs);
    CharPassOthers(h, cs);
  }

  lemma {:induction false} CharPassKeys(h: map<string, int>, cs: string)
    ensures CharPass(h, cs).Keys == h.Keys + set c | c in cs :: [c]
    decreases |cs|
  {
    if cs != [] {
      var init, c := cs[..|cs| - 1], cs[|cs| - 1];
      CharPassKeys(h, init);
      assert cs == init + [c];
      CharsSnoc(init, c);
    }
  }

  lemma {:induction false} CharPassCapped(h: map<string, int>, cs: string)
    ensures forall c :: c in cs ==> [c] in CharPass(h, cs) && CharPass(h, cs)[[c]] <= 30
    decreases |cs|
  {
    if cs != [] {
      var init, c := cs[..|cs| - 1], cs[|cs| - 1];
      CharPassCapped(h, init);
      assert cs == init + [c];
      forall d | d in cs ensures [d] in CharPass(h, cs) && CharPass(h, cs)[[d]] <= 30 {
        if d != c {
          assert d in init;
          assert [d] != [c];
        }
      }
    }
  }

  lemma {:induction false} CharPassOthers(h: map<string, int>, cs: string)
    ensures forall k :: k in h && (|k| != 1 || k[0] !in cs) ==> k in CharPass(h, cs) && CharPass(h, cs)[k] == h[k]
    decreases |cs|
  {
    if cs != [] {
      var init, c := cs[..|cs| - 1], cs[|cs| - 1];
      CharPassOthers(h, init);
      assert cs == init + [c];
      forall k | k in h && (|k| != 1 || k[0] !in cs) ensures k in CharPass(h, cs) && CharPass(h, cs)[k] == h[k] {
        assert k != [c];
        assert |k| != 1 || k[0] !in init;
      }
    }
  }

  /** The one-character keys of `cs + [c]`. */
  lemma CharsSnoc(cs: string, c: char)
    ensures (set d | d in cs + [c] :: [d]) == (set d | d in cs :: [d]) + {[c]}
  {
  }

  lemma {:induction false} RoundsKeys(s: string, k: nat)
    requires 1 <= k <= |s| + 1
    ensures Rounds(s, k).Keys == (set c | c in s :: [c]) + (set i | 0 <= i < k :: s[..i])
  {
    var i := k - 1;
    CharPassFacts(Rounds(s, i), s);
    PrefixesStep(s, k);
    if k > 1 {
      RoundsKeys(s, i);
    }
  }

  /** The first `k` prefixes are the first `k - 1` and one more. */
  lemma PrefixesStep(s: string, k: nat)
    requires 1 <= k <= |s| + 1
    ensures (set j | 0 <= j < k :: s[..j]) == (set j | 0 <= j < k - 1 :: s[..j]) + {s[..k - 1]}
  {
    var all, fewer := set j | 0 <= j < k :: s[..j], set j | 0 <= j < k - 1 :: s[..j];
    forall x | x in all ensures x in fewer || x == s[..k - 1] {
      var j :| 0 <= j < k && x == s[..j];
      if j < k - 1 {
        assert s[..j] in fewer;
      }
    }
  }

  lemma {:induction false} RoundsEmptyKey(s: string, k: nat)
    requires 1 <= k <= |s| + 1
    ensures [] in Rounds(s, k) && Rounds(s, k)[[]] == -10
  {
    var i := k - 1;
    assert s[..0] == [];
    if k > 1 {
      RoundsEmptyKey(s, i);
      CharPassOthers(Rounds(s, i), s);
      assert s[..i] != [];
    }
  }

  lemma {:induction false} RoundsCapped(s: string, k: nat)
    requires 1 <= k <= |s| + 1
    ensures forall key :: key in Rounds(s, k) && |key| == 1 && key != s[..k - 1] ==> Rounds(s, k)[key] <= 30
  {
    var i := k - 1;
    var h := Rounds(s, i);
    CharPassFacts(h, s);
    RoundsKeys(s, k);
    forall key | key in Rounds(s, k) && |key| == 1 && key != s[..i] ensures Rounds(s, k)[key] <= 30 {
      assert key in CharPass(h, s);
      assert key[0] in s by {
        if key !in (set c | c in s :: [c]) {
          var j :| 0 <= j < k && key == s[..j];
          assert key[0] == s[0];
        } else {
          var c :| c in s && key == [c];
        }
      }
      assert key == [key[0]];
    }
  }

  /** `count_occ`: every character of `s` and every prefix `s[..i]` with
      `i <= |s| / 4` is a key and nothing else is; the empty key ends with
      -10; a one-character key other than the last prefix written never
      exceeds 30. */
  lemma CountOccFacts(s: string)
    ensures CountOccMap(s).Keys == (set c | c in s :: [c]) + (set i | 0 <= i <= |s| / 4 :: s[..i])
    ensures [] in CountOccMap(s) && CountOccMap(s)[[]] == -10
    ensures forall key :: key in CountOccMap(s) && |key| == 1 && key != s[..|s| / 4] ==> CountOccMap(s)[key] <= 30
  {
    RoundsKeys(s, |s| / 4 + 1);
    RoundsEmptyKey(s, |s| / 4 + 1);
    RoundsCapped(s, |s| / 4 + 1);
    assert (set i | 0 <= i < |s| / 4 + 1 :: s[..i]) == (set i | 0 <= i <= |s| / 4 :: s[..i]);
  }

  /** The weights are not plain character counts: on `abcd` the character
      loop runs twice, so `b` weighs 2, and the prefix key `a` written in the
      second round replaces the count of `a` by 2 * 1 - 10. */
  lemma CountOccExample()
    ensures CountOccMap("abcd") == map["" := -10, "a" := -8, "b" := 2, "c" := 2, "d" := 2]
  {
    var s := "abcd";
    var h1 := map["" := -10, "a" := 1, "b" := 1, "c" := 1, "d" := 1];
    FirstRoundExample();
    OccurrencesExample();
    assert s[..1] == "a";
    CharPassExample(h1);
    assert CountOccMap(s) == CharPass(h1, s)["a" := PrefixWeight(s, 1)];
  }

  /** The first round on `abcd`: one pass of the character loop, then the
      empty prefix. */
  lemma FirstRoundExample()
    ensures Rounds("abcd", 1) == map["" := -10, "a" := 1, "b" := 1, "c" := 1, "d" := 1]
  {
    assert "abcd"[..0] == "";
    CharPassExample(map[]);
  }

  /** `"abcd".split("a")` has two pieces. */
  lemma OccurrencesExample()
    ensures Occurrences("abcd", "a") == 1
  {
    assert Occurrences("", "a") == 0;
    assert "d"[0] != 'a' && "d"[1..] == "";
    assert Occurrences("d", "a") == 0;
    assert "cd"[0] != 'a' && "cd"[1..] == "d";
    assert Occurrences("cd", "a") == 0;
    assert "bcd"[0] != 'a' && "bcd"[1..] == "cd";
    assert Occurrences("bcd", "a") == 0;
    assert "abcd"[..1] == "a" && "abcd"[1..] == "bcd";
  }

  /** The character loop over `abcd`, unrolled. */
  lemma CharPassExample(h: map<string, int>)
    ensures CharPass(h, "abcd") == CountChar(CountChar(CountChar(CountChar(h, 'a'), 'b'), 'c'), 'd')
  {
    assert "abcd"[..3] == "abc" && "abc"[..2] == "ab" && "ab"[..1] == "a" && "a"[..0] == "";
    assert CharPass(h, "a") == CountChar(h, 'a');
    assert CharPass(h, "ab") == CountChar(CharPass(h, "a"), 'b');
    assert CharPass(h, "abc") == CountChar(CharPass(h, "ab"), 'c');
  }

  /** `count_occ` as written: an outer loop over prefix lengths, each
      iteration re-running the per-character loop over the whole string and
      then writing the prefix key. */
  method CountOcc(s: string) returns (hash: map<string, int>)
    ensures hash == CountOccMap(s)
    ensures [] in hash && hash[[]] == -10
  {
    hash := map[];
    for i := 0 to |s| / 4 + 1
      invariant hash == Rounds(s, i)
    {
      var slice := s[..i];
      var occ := SplitCount(s, slice);
      var len := |slice|;
      var start := hash;
      for j := 0 to |s|
        invariant hash == CharPass(start, s[..j])
      {
        assert s[..j + 1][..j] == s[..j];
        var c := s[j];
        if [c] in hash {
          hash := hash[[c] := Bump(hash[[c]])];
        } else {
          hash := hash[[c] := 1];
        }
      }
      assert s[..|s|] == s;
      hash := hash[slice := occ * len - 10];
    }
    CountOccFacts(s);
  }

  // ---------------------------------------------------------------------------
  // The tree and its construction (src/compression.rs:10-60, 91-119)
  // ---------------------------------------------------------------------------

  /** `Node` as the builder creates it: a leaf holding a key, or an internal
      node holding both children. */
  datatype Tree = Leaf(sym: string) | Internal(left: Tree, right: Tree)

  /** The leaves from left to right. */
  function Leaves(t: Tree): seq<string> {
    match t
    case Leaf(s) => [s]
    case Internal(l, r) => Leaves(l) + Leaves(r)
  }

  /** The priority of a subtree: the sum of its leaves' weights. */
  function Weight(t: Tree, w: map<string, int>): int {
    match t
    case Leaf(s) => if s in w then w[s] else 0
    case Internal(l, r) => Weight(l, w) + Weight(r, w)
  }

  /** At every internal node the left child weighs no more than the right. */
  predicate LeftLighter(t: Tree, w: map<string, int>) {
    match t
    case Leaf(_) => true
    case Internal(l, r) => Weight(l, w) <= Weight(r, w) && LeftLighter(l, w) && LeftLighter(r, w)
  }

  /** A heap entry: priority and subtree (`PriorityElement`). */
  type Entry = (int, Tree)

  /** All leaves held by the heap. */
  function HeapLeaves(h: seq<Entry>): multiset<string> {
    if h == [] then multiset{} else multiset(Leaves(h[0].1)) + HeapLeaves(h[1..])
  }

  /** Every entry's priority is its subtree's weight, and every subtree
      places the lighter child on the left. */
  predicate HeapOk(h: seq<Entry>, w: map<string, int>) {
    forall e :: e in h ==> e.0 == Weight(e.1, w) && LeftLighter(e.1, w)
  }

  /** Entry `i` has the lowest priority: what `BinaryHeap::pop` returns under
      the reversed ordering of `PriorityElement`. */
  predicate IsMin(h: seq<Entry>, i: int) {
    0 <= i < |h| && forall j :: 0 <= j < |h| ==> h[i].0 <= h[j].0
  }

  lemma {:induction false} HeapLeavesAppend(a: seq<Entry>, b: seq<Entry>)
    ensures HeapLeaves(a + b) == HeapLeaves(a) + HeapLeaves(b)
  {
    if a == [] {
      assert a + b == b;
    } else {
      assert (a + b)[1..] == a[1..] + b;
      HeapLeavesAppend(a[1..], b);
    }
  }

  lemma {:induction false} HeapLeavesRemove(h: seq<Entry>, i: nat)
    requires i < |h|
    ensures HeapLeaves(h) == HeapLeaves(h[..i] + h[i + 1..]) + multiset(Leaves(h[i].1))
  {
    var pre, post := h[..i], h[i + 1..];
    var mid := [h[i]] + post;
    assert h == pre + mid;
    HeapLeavesAppend(pre, mid);
    HeapLeavesAppend(pre, post);
    assert mid != [] && mid[0] == h[i] && mid[1..] == post;
    assert HeapLeaves(mid) == multiset(Leaves(h[i].1)) + HeapLeaves(post);
  }

  lemma {:induction false} MinExists(h: seq<Entry>)
    requires h != []
    ensures exists i :: IsMin(h, i)
  {
    if |h| > 1 {
      MinExists(h[1..]);
      var i :| IsMin(h[1..], i);
      if h[0].0 <= h[1..][i].0 {
        assert IsMin(h, 0);
      } else {
        assert IsMin(h, i + 1);
      }
    } else {
      assert IsMin(h, 0);
    }
  }

  /** Pop an entry of lowest priority; which one among equals is not fixed. */
  method PopMin(h: seq<Entry>) returns (e: Entry, rest: seq<Entry>)
    requires h != []
    ensures e in h && |rest| == |h| - 1
    ensures forall x :: x in h ==> e.0 <= x.0
    ensures forall x :: x in rest ==> x in h
    ensures HeapLeaves(h) == HeapLeaves(rest) + multiset(Leaves(e.1))
    ensures multiset(rest) + multiset{e} == multiset(h)
  {
    MinExists(h);
    var i :| IsMin(h, i);
    e, rest := h[i], h[..i] + h[i + 1..];
    HeapLeavesRemove(h, i);
    MultisetRemove(h, i);
  }

  lemma MultisetRemove(h: seq<Entry>, i: nat)
    requires i < |h|
    ensures multiset(h[..i] + h[i + 1..]) + multiset{h[i]} == multiset(h)
  {
    var pre, post := h[..i], h[i + 1..];
    assert h == pre + [h[i]] + post;
    assert multiset(pre + post) == multiset(pre) + multiset(post);
    assert multiset(h) == multiset(pre) + multiset{h[i]} + multiset(post);
  }

  /** The heap filled with one leaf per key of the map, in some order. */
  method FillHeap(hash: map<string, int>) returns (heap: seq<Entry>)
    ensures |heap| == |hash|
    ensures HeapLeaves(heap) == multiset(hash.Keys)
    ensures HeapOk(heap, hash)
  {
    heap := [];
    var keys := hash.Keys;
    while keys != {}
      invariant keys <= hash.Keys
      invariant |heap| + |keys| == |hash|
      invariant HeapLeaves(heap) + multiset(keys) == multiset(hash.Keys)
      invariant HeapOk(heap, hash)
      decreases keys
    {
      var k :| k in keys;
      HeapLeavesAppend(heap, [(hash[k], Leaf(k))]);
      assert HeapLeaves([(hash[k], Leaf(k))]) == multiset{k} by {
        assert [(hash[k], Leaf(k))][1..] == [];
      }
      assert multiset(keys) == multiset(keys - {k}) + multiset{k};
      heap := heap + [(hash[k], Leaf(k))];
      keys := keys - {k};
    }
  }

  /** One iteration of the merge loop: pop the two lowest entries, join
      them under a new node with the lower one on the left, push the node
      with the summed priority. */
  method MergeStep(heap: seq<Entry>, ghost hash: map<string, int>) returns (heap': seq<Entry>, ghost fst: Entry, ghost snd: Entry)
    requires |heap| > 1 && HeapOk(heap, hash)
    ensures fst in heap && forall x :: x in heap ==> fst.0 <= x.0
    ensures multiset{fst, snd} <= multiset(heap)
    ensures forall x :: x in multiset(heap) - multiset{fst} ==> snd.0 <= x.0
    ensures multiset(heap') + multiset{fst, snd} == multiset(heap) + multiset{(fst.0 + snd.0, Internal(fst.1, snd.1))}
    ensures |heap'| == |heap| - 1
    ensures HeapLeaves(heap') == HeapLeaves(heap)
    ensures HeapOk(heap', hash)
  {
    var a, h1 := PopMin(heap);
    var b, h2 := PopMin(h1);
    MergeStepFacts(heap, a, h1, b, h2, hash);
    var node: Tree;
    if a.0 <= b.0 {
      node := Internal(a.1, b.1);
    } else {
      node := Internal(b.1, a.1);
    }
    heap' := h2 + [(a.0 + b.0, node)];
    PopTwice(heap, a, h1, b, h2, (a.0 + b.0, node));
    fst, snd := a, b;
  }

  /** The multiset bookkeeping of two pops and one push: `snd` is least
      among what the first pop left. */
  lemma PopTwice(heap: seq<Entry>, fst: Entry, h1: seq<Entry>, snd: Entry, h2: seq<Entry>, e: Entry)
    requires multiset(h1) + multiset{fst} == multiset(heap)
    requires multiset(h2) + multiset{snd} == multiset(h1)
    requires forall x :: x in h1 ==> snd.0 <= x.0
    ensures multiset{fst, snd} <= multiset(heap)
    ensures forall x :: x in multiset(heap) - multiset{fst} ==> snd.0 <= x.0
    ensures multiset(h2 + [e]) + multiset{fst, snd} == multiset(heap) + multiset{e}
  {
    assert multiset(h2 + [e]) == multiset(h2) + multiset{e};
    assert multiset{fst, snd} == multiset{fst} + multiset{snd};
    forall x | x in multiset(heap) - multiset{fst} ensures snd.0 <= x.0 {
      assert multiset(heap)[x] == multiset(h1)[x] + multiset{fst}[x];
      assert x in multiset(h1);
    }
  }

  /** After two pops of a well-formed heap, pushing the merge of the two
      popped entries (the first popped on the left) keeps the heap
      well-formed and keeps its leaves. */
  lemma MergeStepFacts(heap: seq<Entry>, fst: Entry, h1: seq<Entry>, snd: Entry, h2: seq<Entry>, hash: map<string, int>)
    requires HeapOk(heap, hash)
    requires fst in heap && (forall x :: x in heap ==> fst.0 <= x.0)
    requires (forall x :: x in h1 ==> x in heap) && HeapLeaves(heap) == HeapLeaves(h1) + multiset(Leaves(fst.1))
    requires snd in h1 && (forall x :: x in h2 ==> x in h1) && HeapLeaves(h1) == HeapLeaves(h2) + multiset(Leaves(snd.1))
    ensures fst.0 <= snd.0
    ensures HeapOk(h2 + [(fst.0 + snd.0, Internal(fst.1, snd.1))], hash)
    ensures HeapLeaves(h2 + [(fst.0 + snd.0, Internal(fst.1, snd.1))]) == HeapLeaves(heap)
  {
    assert snd in heap;
    MergeFacts(fst, snd, hash);
    PushFacts(h2, heap, (fst.0 + snd.0, Internal(fst.1, snd.1)), hash);
  }

  /** The merged node weighs what its two entries weigh together, keeps the
      lighter one on the left, and holds the leaves of both. */
  lemma MergeFacts(a: Entry, b: Entry, hash: map<string, int>)
    requires a.0 <= b.0
    requires a.0 == Weight(a.1, hash) && LeftLighter(a.1, hash)
    requires b.0 == Weight(b.1, hash) && LeftLighter(b.1, hash)
    ensures a.0 + b.0 == Weight(Internal(a.1, b.1), hash) && LeftLighter(Internal(a.1, b.1), hash)
    ensures multiset(Leaves(Internal(a.1, b.1))) == multiset(Leaves(a.1)) + multiset(Leaves(b.1))
  {
  }

  /** Pushing a well-formed entry onto what is left of a well-formed heap. */
  lemma PushFacts(rest: seq<Entry>, heap: seq<Entry>, e: Entry, hash: map<string, int>)
    requires forall x :: x in rest ==> x in heap
    requires HeapOk(heap, hash) && e.0 == Weight(e.1, hash) && LeftLighter(e.1, hash)
    ensures HeapOk(rest + [e], hash)
    ensures HeapLeaves(rest + [e]) == HeapLeaves(rest) + multiset(Leaves(e.1))
  {
    HeapLeavesAppend(rest, [e]);
    assert HeapLeaves([e]) == multiset(Leaves(e.1)) by {
      assert [e][1..] == [];
    }
  }

  /** `hash_to_huffman_tree`: a one-entry map gives that single leaf; an
      empty map fails (the final pop of an empty heap); otherwise the two
      lowest entries are merged, the lower one on the left, until one is
      left.  The tree's leaves are the map's keys, each exactly once. */
  method BuildTree(hash: map<string, int>) returns (r: Option<Tree>)
    ensures r.Some? <==> |hash| > 0
    ensures |hash| == 1 && r.Some? ==> r.value.Leaf? && r.value.sym in hash
    ensures r.Some? ==> multiset(Leaves(r.value)) == multiset(hash.Keys)
    ensures r.Some? ==> LeftLighter(r.value, hash)
  {
    if |hash| == 1 {
      var k :| k in hash;
      SingleKey(hash, k);
      return Some(Leaf(k));
    }
    var heap := FillHeap(hash);
    while |heap| > 1
      invariant |hash| > 0 ==> |heap| > 0
      invariant HeapLeaves(heap) == multiset(hash.Keys)
      invariant HeapOk(heap, hash)
      decreases |heap|
    {
      ghost var lo, next;
      heap, lo, next := MergeStep(heap, hash);
    }
    if heap == [] {
      return None;
    }
    LastEntry(heap);
    r := Some(heap[0].1);
  }

  lemma SingleKey(hash: map<string, int>, k: string)
    requires |hash| == 1 && k in hash
    ensures hash.Keys == {k}
  {
    assert |hash.Keys - {k}| == 0;
  }

  /** The one entry left on the heap holds all its leaves. */
  lemma LastEntry(heap: seq<Entry>)
    requires |heap| == 1
    ensures heap[0] in heap && HeapLeaves(heap) == multiset(Leaves(heap[0].1))
  {
    assert heap[1..] == [];
  }

  // ---------------------------------------------------------------------------
  // The code table (src/compression.rs:121-152)
  // ---------------------------------------------------------------------------

  /** The (leaf, code) pairs in the order `parcours_huffman_tree` pushes
      them: the left subtree under `repr + "0"`, then the right subtree under
      `repr + "1"`, a leaf under `repr` itself. */
  function Paths(t: Tree, repr: string): (r: seq<Rule>)
    ensures |r| == |Leaves(t)|
  {
    match t
    case Leaf(s) => [(s, repr)]
    case Internal(l, rt) => Paths(l, repr + "0") + Paths(rt, repr + "1")
  }

  /** The pairs listed from left to right name the leaves from left to right. */
  lemma {:induction false} PathsLeaves(t: Tree, repr: string)
    ensures forall i :: 0 <= i < |Paths(t, repr)| ==> Paths(t, repr)[i].0 == Leaves(t)[i]
  {
    match t
    case Leaf(_) =>
    case Internal(l, rt) =>
      PathsLeaves(l, repr + "0");
      PathsLeaves(rt, repr + "1");
  }

  /** Every code extends `repr` by bits only, and strictly so below an
      internal node. */
  lemma {:induction false} PathsCodes(t: Tree, repr: string)
    ensures forall i :: 0 <= i < |Paths(t, repr)| ==>
      var code := Paths(t, repr)[i].1;
      repr <= code && BitsOnly(code[|repr|..]) && (t.Internal? ==> |code| > |repr|)
  {
    match t
    case Leaf(_) =>
      assert repr[|repr|..] == [];
    case Internal(l, rt) =>
      var a: seq<Rule>, b: seq<Rule> := Paths(l, repr + "0"), Paths(rt, repr + "1");
      PathsCodes(l, repr + "0");
      PathsCodes(rt, repr + "1");
      forall i | 0 <= i < |a| + |b|
        ensures var code := (a + b)[i].1;
          repr <= code && BitsOnly(code[|repr|..]) && |code| > |repr|
      {
        var bit: char := if i < |a| then '0' else '1';
        var code := (a + b)[i].1;
        assert repr + [bit] <= code && BitsOnly(code[|repr| + 1..]);
        assert code[|repr|..] == [bit] + code[|repr| + 1..];
      }
  }

  /** The codes of two different positions: neither is a prefix of the other. */
  lemma {:induction false} PathsPrefixFree(t: Tree, repr: string)
    ensures forall i, j :: 0 <= i < |Paths(t, repr)| && 0 <= j < |Paths(t, repr)| && i != j ==>
      !(Paths(t, repr)[i].1 <= Paths(t, repr)[j].1)
  {
    match t
    case Leaf(_) =>
    case Internal(l, rt) =>
      var a: seq<Rule>, b: seq<Rule> := Paths(l, repr + "0"), Paths(rt, repr + "1");
      PathsPrefixFree(l, repr + "0");
      PathsPrefixFree(rt, repr + "1");
      PathsCodes(l, repr + "0");
      PathsCodes(rt, repr + "1");
      forall i, j | 0 <= i < |a + b| && 0 <= j < |a + b| && i != j
        ensures !((a + b)[i].1 <= (a + b)[j].1)
      {
        if i < |a| && j >= |a| {
          SplitAt(a[i].1, b[j - |a|].1, repr, '0', '1');
        } else if i >= |a| && j < |a| {
          SplitAt(b[i - |a|].1, a[j].1, repr, '1', '0');
        } else if i < |a| {
          assert (a + b)[i] == a[i] && (a + b)[j] == a[j];
        } else {
          assert (a + b)[i] == b[i - |a|] && (a + b)[j] == b[j - |a|];
        }
      }
  }

  /** Codes that branch apart after a common `repr` are not prefixes of one another. */
  lemma SplitAt(x: string, y: string, repr: string, c1: char, c2: char)
    requires repr + [c1] <= x && repr + [c2] <= y && c1 != c2
    ensures !(x <= y)
  {
    assert x[|repr|] == c1 && y[|repr|] == c2;
  }

  /** A map filled from the pairs in order, a later pair overwriting an
      earlier one with the same key (`HashMap::insert` in a loop). */
  function ToMap(rs: seq<Rule>): map<string, string> {
    if rs == [] then map[] else ToMap(rs[..|rs| - 1])[rs[|rs| - 1].0 := rs[|rs| - 1].1]
  }

  /** The keys are the first components; each value comes from a pair with its key. */
  lemma {:induction false} ToMapFacts(rs: seq<Rule>)
    ensures forall k :: k in ToMap(rs) <==> exists i :: 0 <= i < |rs| && rs[i].0 == k
    ensures forall k :: k in ToMap(rs) ==> exists i :: 0 <= i < |rs| && rs[i] == (k, ToMap(rs)[k])
  {
    if rs != [] {
      var init, last := rs[..|rs| - 1], rs[|rs| - 1];
      ToMapFacts(init);
      forall k ensures k in ToMap(rs) <==> exists i :: 0 <= i < |rs| && rs[i].0 == k {
        if k in ToMap(rs) && k != last.0 {
          assert k in ToMap(init);
          var i :| 0 <= i < |init| && init[i].0 == k;
          assert rs[i].0 == k;
        }
        if (exists i :: 0 <= i < |rs| && rs[i].0 == k) && k != last.0 {
          var i :| 0 <= i < |rs| && rs[i].0 == k;
          assert init[i].0 == k;
        }
      }
      forall k | k in ToMap(rs) ensures exists i :: 0 <= i < |rs| && rs[i] == (k, ToMap(rs)[k]) {
        if k == last.0 {
          assert rs[|rs| - 1] == (k, ToMap(rs)[k]);
        } else {
          var i :| 0 <= i < |init| && init[i] == (k, ToMap(init)[k]);
          assert rs[i] == (k, ToMap(rs)[k]);
        }
      }
    }
  }

  /** The map `eval_huffman_tree` returns: a lone leaf gets the code `0`;
      otherwise every leaf gets its path. */
  function CodeTable(t: Tree): map<string, string> {
    if t.Leaf? then map[t.sym := "0"] else ToMap(Paths(t, ""))
  }

  /** The code table has exactly the leaves as keys, gives each a non-empty
      code of bits, and is prefix-free: no code of one key starts another's. */
  lemma CodeTableFacts(t: Tree)
    ensures forall k :: k in CodeTable(t) <==> k in Leaves(t)
    ensures forall k :: k in CodeTable(t) ==> CodeTable(t)[k] != [] && BitsOnly(CodeTable(t)[k])
    ensures forall a, b :: a in CodeTable(t) && b in CodeTable(t) && a != b ==> !(CodeTable(t)[a] <= CodeTable(t)[b])
  {
    CodeTableKeys(t);
    CodeTableCodes(t);
    CodeTablePrefixFree(t);
  }

  lemma CodeTableKeys(t: Tree)
    ensures forall k :: k in CodeTable(t) <==> k in Leaves(t)
  {
    if t.Internal? {
      var ps := Paths(t, "");
      ToMapFacts(ps);
      PathsLeaves(t, "");
      forall k | k in Leaves(t) ensures k in CodeTable(t) {
        var i :| 0 <= i < |Leaves(t)| && Leaves(t)[i] == k;
        assert ps[i].0 == k;
      }
    }
  }

  lemma CodeTableCodes(t: Tree)
    ensures forall k :: k in CodeTable(t) ==> CodeTable(t)[k] != [] && BitsOnly(CodeTable(t)[k])
  {
    if t.Internal? {
      var ps := Paths(t, "");
      ToMapFacts(ps);
      PathsCodes(t, "");
      forall k | k in CodeTable(t) ensures CodeTable(t)[k] != [] && BitsOnly(CodeTable(t)[k]) {
        var i :| 0 <= i < |ps| && ps[i] == (k, CodeTable(t)[k]);
        assert ps[i].1[0..] == ps[i].1;
      }
    }
  }

  lemma CodeTablePrefixFree(t: Tree)
    ensures forall a, b :: a in CodeTable(t) && b in CodeTable(t) && a != b ==> !(CodeTable(t)[a] <= CodeTable(t)[b])
  {
    if t.Internal? {
      var ps := Paths(t, "");
      ToMapFacts(ps);
      PathsPrefixFree(t, "");
      forall a, b | a in CodeTable(t) && b in CodeTable(t) && a != b
        ensures !(CodeTable(t)[a] <= CodeTable(t)[b])
      {
        var i :| 0 <= i < |ps| && ps[i] == (a, CodeTable(t)[a]);
        var j :| 0 <= j < |ps| && ps[j] == (b, CodeTable(t)[b]);
        assert i != j;
      }
    }
  }

  /** `parcours_huffman_tree`: append the pairs of `node` under `repr` to `vector`. */
  method Walk(vector: seq<Rule>, node: Tree, repr: string) returns (v: seq<Rule>)
    ensures v == vector + Paths(node, repr)
    decreases node
  {
    match node
    case Leaf(s) =>
      v := vector + [(s, repr)];
    case Internal(l, rt) =>
      v := Walk(vector, l, repr + "0");
      v := Walk(v, rt, repr + "1");
      assert vector + Paths(l, repr + "0") + Paths(rt, repr + "1")
             == vector + (Paths(l, repr + "0") + Paths(rt, repr + "1"));
  }

  /** `eval_huffman_tree`: a lone leaf maps to `0`; otherwise the walk's
      pairs are inserted in order. */
  method EvalHuffmanTree(node: Tree) returns (hash: map<string, string>)
    ensures hash == CodeTable(node)
  {
    if node.Leaf? {
      return map[node.sym := "0"];
    }
    var v := Walk([], node, "");
    hash := map[];
    for i := 0 to |v|
      invariant hash == ToMap(v[..i])
    {
      assert v[..i + 1][..i] == v[..i];
      hash := hash[v[i].0 := v[i].1];
    }
    assert v[..|v|] == v;
  }

  /** The tree of the worked example (`c` on the left of the root, `b` and
      `d` under the left child of the right child, `a` on its right) gives
      `c` the code `0`, `a` `11`, `b` `100` and `d` `101`. */
  lemma CodeTableExample()
    ensures CodeTable(Internal(Leaf("c"), Internal(Internal(Leaf("b"), Leaf("d")), Leaf("a"))))
            == map["c" := "0", "b" := "100", "d" := "101", "a" := "11"]
  {
    var ps := Paths(Internal(Leaf("c"), Internal(Internal(Leaf("b"), Leaf("d")), Leaf("a"))), "");
    assert "" + "0" == "0" && "" + "1" == "1" && "1" + "0" == "10" && "1" + "1" == "11";
    assert "10" + "0" == "100" && "10" + "1" == "101";
    assert Paths(Internal(Leaf("b"), Leaf("d")), "10") == [("b", "100"), ("d", "101")];
    assert Paths(Leaf("a"), "11") == [("a", "11")] && Paths(Leaf("c"), "0") == [("c", "0")];
    assert Paths(Internal(Internal(Leaf("b"), Leaf("d")), Leaf("a")), "1") == [("b", "100"), ("d", "101"), ("a", "11")];
    assert ps == [("c", "0"), ("b", "100"), ("d", "101"), ("a", "11")];
    assert ps[..3] == [("c", "0"), ("b", "100"), ("d", "101")];
    assert ps[..3][..2] == [("c", "0"), ("b", "100")];
    assert ps[..3][..2][..1] == [("c", "0")];
    assert ToMap(ps[..3][..2][..1]) == map["c" := "0"];
    assert ToMap(ps[..3][..2]) == map["c" := "0", "b" := "100"];
    assert ToMap(ps[..3]) == map["c" := "0", "b" := "100", "d" := "101"];
  }
}
