/**
  The decompressor of src/bin/exo1.rs: read the rule block line by line up to
  the first empty line, split each line at its first `=` into
  (code, replacement), take the next line as the bitstring, build a
  decompress-mode program and evaluate it on the bitstring.

  Reading the file is left to the caller: the operations take the file
  contents.  Every `unwrap` that would panic, and every evaluation that
  would never return, gives `None`.
 */
module Decompression {
  import opened Text
  import opened Rules

  // ---------------------------------------------------------------------------
  // Rust's `str::lines`
  // ---------------------------------------------------------------------------

  /** The index of the first `c` in `s`, or `|s|` when there is none. */
  function IndexOf(s: string, c: char): (n: nat)
    ensures n <= |s|
    ensures forall i :: 0 <= i < n ==> s[i] != c
    ensures n < |s| ==> s[n] == c
  {
    if s == [] || s[0] == c then 0 else 1 + IndexOf(s[1..], c)
  }

  lemma {:induction false} IndexOfAt(s: string, c: char, n: nat)
    requires n < |s| && s[n] == c && forall i :: 0 <= i < n ==> s[i] != c
    ensures IndexOf(s, c) == n
  {
    if n > 0 {
      IndexOfAt(s[1..], c, n - 1);
    }
  }

  /** A line terminated by `\r\n` loses the `\r` as well. */
  function DropCR(l: string): (r: string)
    ensures r == l || (r + "\r" == l)
  {
    if l != [] && l[|l| - 1] == '\r' then l[..|l| - 1] else l
  }

  /** The lines of `s`: pieces between `\n`s, a `\r` right before a `\n`
      removed, no empty piece after a final `\n`. */
  function Lines(s: string): seq<string>
    decreases |s|
  {
    if s == [] then []
    else
      var n := IndexOf(s, '\n');
      if n == |s| then [s] else [DropCR(s[..n])] + Lines(s[n + 1..])
  }

  /** A line free of `\n` that does not end with `\r` comes back unchanged. */
  predicate OneLine(l: string) {
    (forall i :: 0 <= i < |l| ==> l[i] != '\n') && (l == [] || l[|l| - 1] != '\r')
  }

  lemma LinesCons(l: string, rest: string)
    requires OneLine(l)
    ensures Lines(l + "\n" + rest) == [l] + Lines(rest)
  {
    var s := l + "\n" + rest;
    assert forall i :: 0 <= i < |l| ==> s[i] == l[i];
    assert s[|l|] == '\n';
    assert IndexOf(s, '\n') == |l| by {
      IndexOfAt(s, '\n', |l|);
    }
    assert s[..|l|] == l && s[|l| + 1..] == rest;
  }

  lemma LinesLast(l: string)
    requires l != [] && forall i :: 0 <= i < |l| ==> l[i] != '\n'
    ensures Lines(l) == [l]
  {
  }

  // ---------------------------------------------------------------------------
  // Parsing the file (src/bin/exo1.rs:8-21)
  // ---------------------------------------------------------------------------

  /** `split_once('=')`: the parts before and after the first `=`. */
  function SplitOnce(l: string): (r: Option<Rule>)
    ensures r.None? <==> forall i :: 0 <= i < |l| ==> l[i] != '='
    ensures r.Some? ==> l == r.value.0 + "=" + r.value.1 && forall i :: 0 <= i < |r.value.0| ==> r.value.0[i] != '='
  {
    var n := IndexOf(l, '=');
    if n == |l| then None
    else
      assert l == l[..n] + "=" + l[n + 1..];
      Some((l[..n], l[n + 1..]))
  }

  lemma SplitOnceJoin(a: string, b: string)
    requires forall i :: 0 <= i < |a| ==> a[i] != '='
    ensures SplitOnce(a + "=" + b) == Some((a, b))
  {
    var l := a + "=" + b;
    IndexOfAt(l, '=', |a|);
    assert l[..|a|] == a && l[|a| + 1..] == b;
  }

  /** The rule block from line `i` on, added to the rules `acc` already read,
      and the bitstring line after the block.  `None` when some rule line has
      no `=`, or when no line follows the block (the block reaches the end
      of the file or its empty line is the last one). */
  function ParseFrom(ls: seq<string>, i: nat, acc: seq<Rule>): Option<(seq<Rule>, string)>
    decreases |ls| - i
  {
    if i >= |ls| then None
    else if ls[i] == [] then (if i + 1 < |ls| then Some((acc, ls[i + 1])) else None)
    else
      match SplitOnce(ls[i])
      case None => None
      case Some(rule) => ParseFrom(ls, i + 1, acc + [rule])
  }

  /** The rule table and the bitstring of a file. */
  function Parse(input: string): Option<(seq<Rule>, string)> {
    ParseFrom(Lines(input), 0, [])
  }

  /** Line `b` is empty, `line` follows it, and `rules` is `acc` followed
      by the rules split from lines `i` up to `b`, one per line, in order. */
  predicate BlockAt(ls: seq<string>, i: nat, acc: seq<Rule>, rules: seq<Rule>, line: string, b: nat) {
    && i <= b && b + 1 < |ls| && ls[b] == [] && line == ls[b + 1]
    && |rules| == |acc| + (b - i) && rules[..|acc|] == acc
    && forall j :: i <= j < b ==> ls[j] != [] && SplitOnce(ls[j]) == Some(rules[|acc| + (j - i)])
  }

  /** What a successful parse read: the lines before the first empty line,
      each split at its first `=` into one rule, in file order, and the line
      right after the empty one as the bitstring. */
  lemma {:induction false} ParseFromShape(ls: seq<string>, i: nat, acc: seq<Rule>)
    requires i <= |ls| && ParseFrom(ls, i, acc).Some?
    ensures exists b :: BlockAt(ls, i, acc, ParseFrom(ls, i, acc).value.0, ParseFrom(ls, i, acc).value.1, b)
    decreases |ls| - i
  {
    var rules, line := ParseFrom(ls, i, acc).value.0, ParseFrom(ls, i, acc).value.1;
    if ls[i] == [] {
      assert acc[..|acc|] == acc;
      assert BlockAt(ls, i, acc, rules, line, i);
    } else {
      var rule := SplitOnce(ls[i]).value;
      ParseFromShape(ls, i + 1, acc + [rule]);
      var b :| BlockAt(ls, i + 1, acc + [rule], rules, line, b);
      assert rules[..|acc|] == (acc + [rule])[..|acc|] == acc;
      assert rules[|acc|] == (acc + [rule])[|acc|] == rule;
      assert BlockAt(ls, i, acc, rules, line, b);
    }
  }

  /** A file in which every line is a rule line has no bitstring. */
  lemma {:induction false} ParseNoSeparator(ls: seq<string>, i: nat, acc: seq<Rule>)
    requires forall j :: i <= j < |ls| ==> ls[j] != []
    ensures ParseFrom(ls, i, acc) == None
    decreases |ls| - i
  {
    if i < |ls| && SplitOnce(ls[i]).Some? {
      ParseNoSeparator(ls, i + 1, acc + [SplitOnce(ls[i]).value]);
    }
  }

  /** The loop of `decompress` over the lines, then the line after the block. */
  method ParseFile(input: string) returns (r: Option<(seq<Rule>, string)>)
    ensures r == Parse(input)
  {
    var ls := Lines(input);
    var intrs: seq<Rule> := [];
    var i := 0;
    while i < |ls| && ls[i] != []
      invariant 0 <= i <= |ls|
      invariant ParseFrom(ls, i, intrs) == Parse(input)
      decreases |ls| - i
    {
      var split := SplitOnce(ls[i]);
      if split.None? {
        return None;
      }
      intrs := intrs + [split.value];
      i := i + 1;
    }
    if i + 1 >= |ls| {
      return None;
    }
    r := Some((intrs, ls[i + 1]));
  }

  // ---------------------------------------------------------------------------
  // Decompression (src/bin/exo1.rs:5-26)
  // ---------------------------------------------------------------------------

  /** What `decompress` returns for a file with contents `input`. */
  function DecompressText(input: string, fuel: nat): Option<string> {
    match Parse(input)
    case None => None
    case Some((rules, line)) =>
      match Build(rules, Decompress, fuel)
      case None => None
      case Some(table) => Rewrite(table, Decompress, line, fuel)
  }

  /** `decompress`: parse, build the decompress-mode program, evaluate. */
  method DecompressFile(input: string, fuel: nat) returns (r: Option<string>)
    ensures r == DecompressText(input, fuel)
  {
    var parsed := ParseFile(input);
    if parsed.None? {
      return None;
    }
    var (intrs, line) := parsed.value;
    var prog, ok := New(intrs, Decompress, fuel);
    if !ok {
      return None;
    }
    r := prog.Eval(line, fuel);
  }

  /** A replacement made of bits is decoded again, so a rule whose
      replacement is its own code never finishes: `0=0`, an empty line and
      `0` decompress to nothing for any fuel. */
  lemma SelfReferenceDiverges(fuel: nat)
    ensures DecompressText("0=0\n\n0", fuel) == None
  {
    var rules: seq<Rule> := [("0", "0")];
    SelfReferenceParse();
    assert StableSort(Decompress, rules) == rules by {
      assert rules[..0] == [];
    }
    SelfNormalizeFails(fuel);
    assert Build(rules, Decompress, fuel) == None;
  }

  lemma SelfReferenceParse()
    ensures Parse("0=0\n\n0") == Some(([("0", "0")], "0"))
  {
    var input := "0=0\n\n0";
    SelfReferenceLines();
    SplitOnceJoin("0", "0");
    assert "0" + "=" + "0" == "0=0";
    var ls := Lines(input);
    var one: seq<Rule> := [("0", "0")];
    assert ls[1] == [] && ls[2] == "0" && |ls| == 3;
    assert ParseFrom(ls, 1, one) == Some((one, "0"));
    assert [] + one == one;
  }

  lemma SelfReferenceLines()
    ensures Lines("0=0\n\n0") == ["0=0", "", "0"]
  {
    assert "0=0\n\n0" == "0=0" + "\n" + "\n0";
    LinesCons("0=0", "\n0");
    SecondLines();
  }

  lemma SecondLines()
    ensures Lines("\n0") == ["", "0"]
  {
    assert "\n0" == "" + "\n" + "0";
    LinesCons("", "0");
    LinesLast("0");
  }

  /** Under the table `0=0`, the replacement `0` normalises to nothing. */
  lemma {:induction false} SelfNormalizeFails(fuel: nat)
    ensures Normalize([("0", "0")], Decompress, "0", fuel) == None
  {
    if fuel > 0 {
      var rules: seq<Rule> := [("0", "0")];
      assert BitRun("0") == 1;
      assert "0"[..1] == "0";
      assert FirstMatch(rules, "0") == 0;
      SelfNormalizeFails(fuel - 1);
      assert Rewrite(rules, Decompress, "0", fuel - 1) == None;
    }
  }
}
