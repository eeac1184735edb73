/** Strings joined with a one-character separator, as `ARRAY_TO_STRING(parts, sep)`
    does, and the inverse split used to state what a joined string holds. */
module Text {

  /** Concatenates `parts`, with `sep` between each two neighbours; `""` for no parts. */
  function Join(parts: seq<string>, sep: char): string
  {
    if |parts| == 0 then ""
    else if |parts| == 1 then parts[0]
    else parts[0] + [sep] + Join(parts[1..], sep)
  }

  /** Cuts `s` at every occurrence of `sep`; there is always at least one piece. */
  function Split(s: string, sep: char): (pieces: seq<string>)
    ensures |pieces| >= 1
  {
    if |s| == 0 then [""]
    else
      var rest := Split(s[1..], sep);
      if s[0] == sep then [""] + rest
      else [[s[0]] + rest[0]] + rest[1..]
  }

  /** `p` is not a prefix of `t` when they differ at some position of `p`. */
  lemma PrefixMismatch(p: string, t: string, k: nat)
    requires k < |p| && (k >= |t| || p[k] != t[k])
    ensures !(p <= t)
  {
  }

  /** No piece of `parts` contains the separator. */
  predicate FreeOf(parts: seq<string>, sep: char)
  {
    forall k | 0 <= k < |parts| :: sep !in parts[k]
  }

  /** A string without the separator is a single piece. */
  lemma {:induction false} SplitWithoutSeparator(a: string, sep: char)
    requires sep !in a
    ensures Split(a, sep) == [a]
  {
    if |a| > 0 {
      SplitWithoutSeparator(a[1..], sep);
      assert [a[0]] + a[1..] == a;
    }
  }

  /** Splitting after a separator-free first piece peels that piece off. */
  lemma {:induction false} SplitPeel(a: string, b: string, sep: char)
    requires sep !in a
    ensures Split(a + [sep] + b, sep) == [a] + Split(b, sep)
  {
    var s := a + [sep] + b;
    if |a| == 0 {
      assert s[0] == sep && s[1..] == b;
    } else {
      assert s[0] == a[0] && s[1..] == a[1..] + [sep] + b;
      SplitPeel(a[1..], b, sep);
      assert [a[0]] + a[1..] == a;
    }
  }

  /** Splitting undoes joining when no part contains the separator: the joined
      string has exactly one slot per part, in order. */
  lemma {:induction false} SplitJoin(parts: seq<string>, sep: char)
    requires |parts| >= 1
    requires FreeOf(parts, sep)
    ensures Split(Join(parts, sep), sep) == parts
  {
    if |parts| == 1 {
      SplitWithoutSeparator(parts[0], sep);
    } else {
      assert sep !in parts[0];
      assert FreeOf(parts[1..], sep) by {
        forall k | 0 <= k < |parts[1..]| ensures sep !in parts[1..][k] {
          assert parts[1..][k] == parts[k + 1];
        }
      }
      SplitJoin(parts[1..], sep);
      SplitPeel(parts[0], Join(parts[1..], sep), sep);
      assert [parts[0]] + parts[1..] == parts;
    }
  }

  /** Under the same condition, joining is injective. */
  lemma JoinInjective(p: seq<string>, q: seq<string>, sep: char)
    requires |p| >= 1 && |q| >= 1
    requires FreeOf(p, sep) && FreeOf(q, sep)
    requires Join(p, sep) == Join(q, sep)
    ensures p == q
  {
    SplitJoin(p, sep);
    SplitJoin(q, sep);
  }
}
