/**
  Shared vocabulary of the codec: an optional result for operations that the
  original program can only abort or loop on, rewrite rules, and the helpers on
  strings of `0`/`1` characters that the engine treats specially.
 */
module Text {

  /** A result that is missing when the original program would panic or never return. */
  datatype Option<+T> = None | Some(value: T)

  /** A rewrite rule: (pattern, replacement). */
  type Rule = (string, string)

  /** The two characters that the engine reads as code bits. */
  predicate IsBit(c: char) {
    c == '0' || c == '1'
  }

  /** No `0` or `1` anywhere in `s`: a fully decoded text. */
  predicate NoBits(s: string) {
    forall i :: 0 <= i < |s| ==> !IsBit(s[i])
  }

  /** Only `0` and `1` in `s`: a code word or an encoded bitstring. */
  predicate BitsOnly(s: string) {
    forall i :: 0 <= i < |s| ==> IsBit(s[i])
  }

  /** `s` with `a` in front, failure propagated. */
  function Prepend<T>(a: seq<T>, s: Option<seq<T>>): (r: Option<seq<T>>)
    ensures r.Some? <==> s.Some?
    ensures r.Some? ==> r.value == a + s.value
  {
    match s
    case None => None
    case Some(t) => Some(a + t)
  }

  /** Patterns of a sequence of rules, concatenated. */
  function Patterns(rs: seq<Rule>): string {
    if rs == [] then [] else rs[0].0 + Patterns(rs[1..])
  }

  /** Replacements of a sequence of rules, concatenated. */
  function Replacements(rs: seq<Rule>): string {
    if rs == [] then [] else rs[0].1 + Replacements(rs[1..])
  }

  /** Each rule with pattern and replacement exchanged. */
  function Swapped(rs: seq<Rule>): (r: seq<Rule>)
    ensures |r| == |rs|
    ensures forall i :: 0 <= i < |rs| ==> r[i] == (rs[i].1, rs[i].0)
  {
    if rs == [] then [] else [(rs[0].1, rs[0].0)] + Swapped(rs[1..])
  }

  lemma {:induction false} SwappedPatterns(rs: seq<Rule>)
    ensures Patterns(Swapped(rs)) == Replacements(rs)
    ensures Replacements(Swapped(rs)) == Patterns(rs)
  {
    if rs != [] {
      SwappedPatterns(rs[1..]);
      assert Swapped(rs)[1..] == Swapped(rs[1..]);
    }
  }

  lemma PrependEmpty<T>(s: Option<seq<T>>)
    ensures Prepend([], s) == s
  {
    if s.Some? {
      assert [] + s.value == s.value;
    }
  }

  lemma PrependTwice<T>(a: seq<T>, b: seq<T>, s: Option<seq<T>>)
    ensures Prepend(a, Prepend(b, s)) == Prepend(a + b, s)
  {
    if s.Some? {
      assert a + (b + s.value) == (a + b) + s.value;
    }
  }
}
