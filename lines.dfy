/**
 * The line-by-line rewrite the formatters use:
 * `'\n'.join(f(line) for line in text.split('\n'))`, as a specification
 * function and as the loop that builds the list of lines.
 */
module Lines {
  import opened Text

  /** `[f(l) for l in ls]`. */
  function MapAll(ls: seq<string>, f: string -> string): (r: seq<string>)
    ensures |r| == |ls| && forall k :: 0 <= k < |ls| ==> r[k] == f(ls[k])
  {
    seq(|ls|, k requires 0 <= k < |ls| => f(ls[k]))
  }

  /** Every line of `text` rewritten by `f`. */
  function LineMap(text: string, f: string -> string): string {
    Join(MapAll(Split(text, '\n'), f), "\n")
  }

  /** `f` turns each line of `text` into a single line. */
  predicate KeepsLines(text: string, f: string -> string) {
    forall k :: 0 <= k < |Split(text, '\n')| ==> '\n' !in f(Split(text, '\n')[k])
  }

  /** The rewrite keeps the number of lines, and line `k` of the result is `f` of line `k`. */
  lemma LineMapLines(text: string, f: string -> string)
    requires KeepsLines(text, f)
    ensures Split(LineMap(text, f), '\n') == MapAll(Split(text, '\n'), f)
    ensures |Split(LineMap(text, f), '\n')| == |Split(text, '\n')|
  {
    SplitJoin(MapAll(Split(text, '\n'), f), '\n');
  }

  /** The pieces of `s.split('\n')` hold only characters of `s`. */
  lemma {:induction false} SplitAvoids(s: string, c: char)
    requires c !in s
    ensures forall k :: 0 <= k < |Split(s, '\n')| ==> c !in Split(s, '\n')[k]
    decreases |s|
  {
    if |s| > 0 {
      assert c !in s[1..] by {
        forall x | 0 <= x < |s[1..]| ensures s[1..][x] != c {
          assert s[1..][x] == s[x + 1];
        }
      }
      SplitAvoids(s[1..], c);
      assert s[0] != c;
    }
  }

  /** A character in no part and not the separator is not in the join. */
  lemma {:induction false} JoinAvoids(parts: seq<string>, sep: string, c: char)
    requires c !in sep && forall k :: 0 <= k < |parts| ==> c !in parts[k]
    ensures c !in Join(parts, sep)
    decreases |parts|
  {
    if |parts| > 1 {
      JoinAvoids(parts[1..], sep, c);
      assert c !in parts[0];
    }
  }

  /** A character missing from `s` is missing from every slice of it. */
  lemma SliceAvoids(s: string, i: nat, j: nat, c: char)
    requires i <= j <= |s| && c !in s
    ensures c !in s[i..j]
  {
    forall x | 0 <= x < j - i ensures s[i..j][x] != c {
      assert s[i..j][x] == s[i + x];
    }
  }

  /** A character other than `'\n'` that `f` puts in no line stays out of the result. */
  lemma LineMapAvoids(text: string, f: string -> string, c: char)
    requires c != '\n'
    requires forall k :: 0 <= k < |Split(text, '\n')| ==> c !in f(Split(text, '\n')[k])
    ensures c !in LineMap(text, f)
  {
    JoinAvoids(MapAll(Split(text, '\n'), f), "\n", c);
  }

  /** The loop: split into lines, append `f(line)` for each line in order, join with `'\n'`. */
  method MapLines(text: string, f: string -> string) returns (r: string)
    ensures r == LineMap(text, f)
  {
    var lines := Split(text, '\n');
    var result: seq<string> := [];
    for k := 0 to |lines|
      invariant result == MapAll(lines[..k], f)
    {
      result := result + [f(lines[k])];
    }
    assert lines[..|lines|] == lines;
    r := Join(result, "\n");
  }
}
