/** The two operations of Go's `strings` package that the decoders use. */
module Strings {

  /** Joins non-empty `parts` with `sep` between neighbours (`strings.Join`). */
  function Join(parts: seq<string>, sep: char): string
    requires |parts| > 0
  {
    if |parts| == 1 then parts[0]
    else Join(parts[..|parts| - 1], sep) + [sep] + parts[|parts| - 1]
  }

  /**
   * `strings.Split(s, sep)` for a one-character separator: the pieces between
   * the occurrences of `sep`, so that there is always one more piece than
   * there are separators (the empty string splits into one empty piece).
   */
  function Split(s: string, sep: char): (parts: seq<string>)
    ensures |parts| > 0
  {
    if s == [] then [""]
    else
      var init := Split(s[..|s| - 1], sep);
      var c := s[|s| - 1];
      if c == sep then init + [""]
      else init[..|init| - 1] + [init[|init| - 1] + [c]]
  }

  /** The pieces hold no separator, and joining them with it gives back the input. */
  lemma {:induction false} SplitInverse(s: string, sep: char)
    ensures forall i | 0 <= i < |Split(s, sep)| :: sep !in Split(s, sep)[i]
    ensures Join(Split(s, sep), sep) == s
  {
    if s != [] {
      var t, c := s[..|s| - 1], s[|s| - 1];
      assert s == t + [c];
      SplitInverse(t, sep);
      var init := Split(t, sep);
      var n := |init|;
      if c == sep {
        var r := init + [""];
        assert Split(s, sep) == r;
        assert r[..n] == init;
        assert Join(r, sep) == Join(init, sep) + [sep] + "";
      } else {
        var last := init[n - 1] + [c];
        var r := init[..n - 1] + [last];
        assert Split(s, sep) == r;
        assert sep !in last;
        if n == 1 {
          assert Join(init, sep) == init[0];
          assert Join(r, sep) == last;
        } else {
          assert r[..n - 1] == init[..n - 1];
          assert Join(init, sep) == Join(init[..n - 1], sep) + [sep] + init[n - 1];
          assert Join(r, sep) == Join(init[..n - 1], sep) + [sep] + last;
        }
      }
    }
  }

  lemma {:induction false} SplitNoSeparator(p: string, sep: char)
    requires forall i | 0 <= i < |p| :: p[i] != sep
    ensures Split(p, sep) == [p]
  {
    if p != [] {
      var q, c := p[..|p| - 1], p[|p| - 1];
      assert p == q + [c];
      SplitNoSeparator(q, sep);
      assert Split(p, sep) == [q][..0] + [q + [c]];
    }
  }

  lemma {:induction false} SplitAfterSeparator(x: string, p: string, sep: char)
    requires forall i | 0 <= i < |p| :: p[i] != sep
    ensures Split(x + [sep] + p, sep) == Split(x, sep) + [p]
  {
    var s := x + [sep] + p;
    if p == [] {
      assert s[..|s| - 1] == x;
      assert s[|s| - 1] == sep;
    } else {
      var q, c := p[..|p| - 1], p[|p| - 1];
      SplitAfterSeparator(x, q, sep);
      assert s[..|s| - 1] == x + [sep] + q;
      assert s[|s| - 1] == c;
      var init := Split(x, sep) + [q];
      assert Split(s[..|s| - 1], sep) == init;
      assert init[..|init| - 1] == Split(x, sep);
      assert init[|init| - 1] + [c] == p;
      assert Split(s, sep) == init[..|init| - 1] + [init[|init| - 1] + [c]];
    }
  }

  /** Round trip: splitting a join of separator-free pieces gives the pieces back. */
  lemma {:induction false} SplitJoin(parts: seq<string>, sep: char)
    requires |parts| > 0
    requires forall i, j | 0 <= i < |parts| && 0 <= j < |parts[i]| :: parts[i][j] != sep
    ensures Split(Join(parts, sep), sep) == parts
  {
    if |parts| == 1 {
      SplitNoSeparator(parts[0], sep);
    } else {
      var init := parts[..|parts| - 1];
      SplitJoin(init, sep);
      SplitAfterSeparator(Join(init, sep), parts[|parts| - 1], sep);
      assert init + [parts[|parts| - 1]] == parts;
    }
  }

  predicate HasSuffix(s: string, suffix: string) {
    |s| >= |suffix| && s[|s| - |suffix|..] == suffix
  }

  /** `strings.TrimSuffix`: removes one trailing `suffix` if present. */
  function TrimSuffix(s: string, suffix: string): (r: string)
    ensures HasSuffix(s, suffix) ==> r + suffix == s
    ensures !HasSuffix(s, suffix) ==> r == s
  {
    if HasSuffix(s, suffix) then s[..|s| - |suffix|] else s
  }

  /** Trimming undoes appending the suffix, and only once. */
  lemma TrimSuffixAppended(x: string, suffix: string)
    ensures TrimSuffix(x + suffix, suffix) == x
  {
    assert (x + suffix)[|x|..] == suffix;
  }
}
