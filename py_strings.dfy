/** The parts of Python's string built-ins that the STL reader relies on:
    `str.strip()`, `str.split()` with no separator, the slice `[-3:]` and
    `float()` applied to every token.  Number parsing itself is a parameter
    (`toNum`), so the model says nothing about which spellings `float()` accepts. */
module PyStrings {
  import opened Errors

  /** The characters Python's `str.isspace()` accepts, which are the ones
      `strip()` removes and `split()` separates on. */
  predicate IsSpace(ch: char) {
    ('\t' <= ch <= '\r') || ('\U{1C}' <= ch <= ' ') || ch == '\U{85}' || ch == '\U{A0}'
    || ch == '\U{1680}' || ('\U{2000}' <= ch <= '\U{200A}') || ch == '\U{2028}'
    || ch == '\U{2029}' || ch == '\U{202F}' || ch == '\U{205F}' || ch == '\U{3000}'
  }

  predicate AllSpace(s: string) {
    forall i :: 0 <= i < |s| ==> IsSpace(s[i])
  }

  predicate NoSpace(s: string) {
    forall i :: 0 <= i < |s| ==> !IsSpace(s[i])
  }

  /** `s` without its leading whitespace. */
  function TrimStart(s: string): (r: string)
    ensures |r| <= |s| && (r == [] || !IsSpace(r[0]))
    decreases |s|
  {
    if s != [] && IsSpace(s[0]) then TrimStart(s[1..]) else s
  }

  /** What `TrimStart` cuts away is a run of whitespace at the front. */
  lemma {:induction false} TrimStartSpec(s: string)
    ensures TrimStart(s) == s[|s| - |TrimStart(s)|..]
    ensures AllSpace(s[..|s| - |TrimStart(s)|])
    decreases |s|
  {
    if s != [] && IsSpace(s[0]) {
      TrimStartSpec(s[1..]);
      var k := |s| - |TrimStart(s)|;
      assert s[..k] == [s[0]] + s[1..][..k - 1];
    }
  }

  /** `s` without its trailing whitespace. */
  function TrimEnd(s: string): (r: string)
    ensures |r| <= |s| && (r == [] || !IsSpace(r[|r| - 1]))
    decreases |s|
  {
    if s != [] && IsSpace(s[|s| - 1]) then TrimEnd(s[..|s| - 1]) else s
  }

  /** What `TrimEnd` cuts away is a run of whitespace at the back. */
  lemma {:induction false} TrimEndSpec(s: string)
    ensures TrimEnd(s) == s[..|TrimEnd(s)|]
    ensures AllSpace(s[|TrimEnd(s)|..])
    decreases |s|
  {
    if s != [] && IsSpace(s[|s| - 1]) {
      var u := s[..|s| - 1];
      TrimEndSpec(u);
      var n := |TrimEnd(s)|;
      assert s[n..] == u[n..] + [s[|s| - 1]];
    }
  }

  /** `s.strip()`: `s` without the whitespace at both ends. */
  function Strip(s: string): string {
    TrimEnd(TrimStart(s))
  }

  /** `s.strip()` is the slice of `s` left when runs of whitespace are cut
      from both ends, and it neither starts nor ends with whitespace. */
  lemma StripSpec(s: string)
    ensures Strip(s) == [] || (!IsSpace(Strip(s)[0]) && !IsSpace(Strip(s)[|Strip(s)| - 1]))
    ensures exists k :: 0 <= k <= |s| - |Strip(s)| && Strip(s) == s[k..k + |Strip(s)|]
                        && AllSpace(s[..k]) && AllSpace(s[k + |Strip(s)|..])
  {
    var t := TrimStart(s);
    var r := TrimEnd(t);
    TrimStartSpec(s);
    TrimEndSpec(t);
    var k := |s| - |t|;
    assert r == s[k..k + |r|];
    assert s[k + |r|..] == t[|r|..];
  }

  /** Stripping twice is stripping once. */
  lemma StripIdempotent(s: string)
    ensures Strip(Strip(s)) == Strip(s)
  {
    var r := Strip(s);
    StripSpec(s);
    assert TrimStart(r) == r;
    assert TrimEnd(r) == r;
  }

  /** The characters of `s` that are not whitespace, in order. */
  function NonSpace(s: string): string
    decreases |s|
  {
    if s == [] then [] else (if IsSpace(s[0]) then [] else [s[0]]) + NonSpace(s[1..])
  }

  function Concat(ts: seq<string>): string {
    if ts == [] then [] else ts[0] + Concat(ts[1..])
  }

  lemma {:induction false} NonSpaceAppend(a: string, b: string)
    ensures NonSpace(a + b) == NonSpace(a) + NonSpace(b)
    decreases |a|
  {
    if a != [] {
      assert (a + b)[0] == a[0] && (a + b)[1..] == a[1..] + b;
      NonSpaceAppend(a[1..], b);
      var head := if IsSpace(a[0]) then [] else [a[0]];
      assert NonSpace(a + b) == head + NonSpace(a[1..] + b);
      assert NonSpace(a) == head + NonSpace(a[1..]);
    } else {
      assert a + b == b;
    }
  }

  lemma {:induction false} NonSpaceOfSpaces(a: string)
    requires AllSpace(a)
    ensures NonSpace(a) == []
    decreases |a|
  {
    if a != [] {
      NonSpaceOfSpaces(a[1..]);
    }
  }

  lemma {:induction false} NonSpaceOfWord(a: string)
    requires NoSpace(a)
    ensures NonSpace(a) == a
    decreases |a|
  {
    if a != [] {
      NonSpaceOfWord(a[1..]);
    }
  }

  /** The length of the run of non-whitespace characters that `s` starts with. */
  function WordEnd(s: string): (n: nat)
    ensures n <= |s| && (s != [] && !IsSpace(s[0]) ==> n > 0)
    decreases |s|
  {
    if s == [] || IsSpace(s[0]) then 0 else 1 + WordEnd(s[1..])
  }

  /** `WordEnd` stops at the first whitespace character, or at the end. */
  lemma {:induction false} WordEndSpec(s: string)
    ensures NoSpace(s[..WordEnd(s)])
    ensures WordEnd(s) == |s| || IsSpace(s[WordEnd(s)])
    decreases |s|
  {
    if s != [] && !IsSpace(s[0]) {
      WordEndSpec(s[1..]);
      assert s[..WordEnd(s)] == [s[0]] + s[1..][..WordEnd(s[1..])];
    }
  }

  /** `s.split()`: the words of `s`, in order. */
  function Split(s: string): seq<string>
    decreases |s|
  {
    var t := TrimStart(s);
    if t == [] then [] else [t[..WordEnd(t)]] + Split(t[WordEnd(t)..])
  }

  /** Every item is a word: non-empty and free of whitespace. */
  predicate Words(r: seq<string>) {
    forall k :: 0 <= k < |r| ==> r[k] != [] && NoSpace(r[k])
  }

  /** The words `split()` returns are non-empty and free of whitespace, and
      together they are exactly the non-whitespace characters of the string,
      in order. */
  lemma {:induction false} SplitSpec(s: string)
    ensures Words(Split(s))
    ensures Concat(Split(s)) == NonSpace(s)
    decreases |s|
  {
    var t := TrimStart(s);
    NonSpaceOfTrimmed(s);
    if t != [] {
      var n := WordEnd(t);
      WordEndSpec(t);
      NonSpaceOfWordStart(t);
      SplitSpec(t[n..]);
      WordsCons(t[..n], Split(t[n..]));
    }
  }

  lemma WordsCons(w: string, rest: seq<string>)
    requires w != [] && NoSpace(w) && Words(rest)
    ensures Words([w] + rest)
    ensures Concat([w] + rest) == w + Concat(rest)
  {
    assert ([w] + rest)[1..] == rest;
    assert forall k :: 0 < k < |rest| + 1 ==> ([w] + rest)[k] == rest[k - 1];
  }

  /** Leading whitespace contributes nothing to `NonSpace`. */
  lemma NonSpaceOfTrimmed(s: string)
    ensures NonSpace(s) == NonSpace(TrimStart(s))
  {
    var t := TrimStart(s);
    var k := |s| - |t|;
    TrimStartSpec(s);
    assert s == s[..k] + t;
    NonSpaceAppend(s[..k], t);
    NonSpaceOfSpaces(s[..k]);
  }

  /** A leading word contributes itself to `NonSpace`. */
  lemma NonSpaceOfWordStart(t: string)
    ensures NonSpace(t) == t[..WordEnd(t)] + NonSpace(t[WordEnd(t)..])
  {
    var n := WordEnd(t);
    WordEndSpec(t);
    assert t == t[..n] + t[n..];
    NonSpaceAppend(t[..n], t[n..]);
    NonSpaceOfWord(t[..n]);
  }

  /** A run of whitespace in front changes nothing for `TrimStart`. */
  lemma {:induction false} TrimStartSpaces(p: string, b: string)
    requires AllSpace(p)
    ensures TrimStart(p + b) == TrimStart(b)
    decreases |p|
  {
    if p != [] {
      assert (p + b)[0] == p[0] && (p + b)[1..] == p[1..] + b;
      TrimStartSpaces(p[1..], b);
    } else {
      assert p + b == b;
    }
  }

  /** A word that already stops inside `t`, or stops where `x` starts with
      whitespace, keeps its length when `x` is appended. */
  lemma {:induction false} WordEndAppend(t: string, x: string)
    requires WordEnd(t) < |t| || (x != [] && IsSpace(x[0]))
    ensures WordEnd(t + x) == WordEnd(t)
    decreases |t|
  {
    if t == [] {
      assert t + x == x;
    } else {
      assert (t + x)[0] == t[0];
      if !IsSpace(t[0]) {
        assert (t + x)[1..] == t[1..] + x;
        WordEndAppend(t[1..], x);
      }
    }
  }

  /** Leading whitespace changes nothing for `split()`. */
  lemma SplitSpaces(p: string, x: string)
    requires AllSpace(p)
    ensures Split(p + x) == Split(x)
  {
    TrimStartSpaces(p, x);
  }

  /** A string of whitespace only has no words. */
  lemma SplitOfSpaces(s: string)
    requires AllSpace(s)
    ensures Split(s) == []
  {
    SplitSpaces(s, []);
    assert s + [] == s;
  }

  /** A single word splits into itself. */
  lemma SplitWord(w: string)
    requires w != [] && NoSpace(w)
    ensures Split(w) == [w]
  {
    assert TrimStart(w) == w;
    WordEndSpec(w);
    assert WordEnd(w) == |w|;
    assert w[..|w|] == w && w[|w|..] == [];
    assert Split([]) == [];
  }

  /** The first word of `t + [ch] + b`, with `t` starting on a word and `ch` a
      whitespace character, is the first word of `t`. */
  lemma WordStepAppend(t: string, ch: char, b: string)
    requires t != [] && !IsSpace(t[0]) && IsSpace(ch)
    ensures Split(t + [ch] + b) == [t[..WordEnd(t)]] + Split(t[WordEnd(t)..] + [ch] + b)
  {
    var n := WordEnd(t);
    var u := t + [ch] + b;
    assert u == t + ([ch] + b) && u[0] == t[0];
    WordEndAppend(t, [ch] + b);
    assert u[..n] == t[..n];
    assert u[n..] == t[n..] + [ch] + b;
  }

  /** The step of `SplitAtSpace` for a string that starts on a word: the first
      word is set aside and the rest is split by `rest`'s own equation. */
  lemma SplitAtSpaceWord(t: string, ch: char, b: string)
    requires t != [] && !IsSpace(t[0]) && IsSpace(ch)
    requires Split(t[WordEnd(t)..] + [ch] + b) == Split(t[WordEnd(t)..]) + Split(b)
    ensures Split(t + [ch] + b) == Split(t) + Split(b)
  {
    WordStepAppend(t, ch, b);
    SplitOfWordStart(t);
    ConsAppend(Split(t + [ch] + b), Split(t), Split(t[WordEnd(t)..]), Split(b), t[..WordEnd(t)]);
  }

  lemma ConsAppend<T>(x: seq<T>, y: seq<T>, r1: seq<T>, r2: seq<T>, w: T)
    requires x == [w] + (r1 + r2) && y == [w] + r1
    ensures x == y + r2
  {
  }

  /** `split()` of a string that starts on a word: that word, then the rest. */
  lemma SplitOfWordStart(t: string)
    requires t != [] && !IsSpace(t[0])
    ensures Split(t) == [t[..WordEnd(t)]] + Split(t[WordEnd(t)..])
  {
    assert TrimStart(t) == t;
  }

  /** `split()` cuts at every whitespace character: the words of `a`, a
      whitespace character and `b` are the words of `a` followed by those of `b`. */
  lemma {:induction false} SplitAtSpace(a: string, ch: char, b: string)
    requires IsSpace(ch)
    ensures Split(a + [ch] + b) == Split(a) + Split(b)
    decreases |a|
  {
    var t := TrimStart(a);
    var k := |a| - |t|;
    TrimStartSpec(a);
    var p := a[..k];
    assert a == p + t;
    assert a + [ch] + b == p + (t + [ch] + b);
    SplitSpaces(p, t + [ch] + b);
    SplitSpaces(p, t);
    if t == [] {
      assert t + [ch] + b == [ch] + b;
      SplitSpaces([ch], b);
    } else {
      SplitAtSpace(t[WordEnd(t)..], ch, b);
      SplitAtSpaceWord(t, ch, b);
    }
  }

  /** Python's `xs[-3:]`: the last three items, or all of them when there are fewer. */
  function LastThree<T>(xs: seq<T>): (r: seq<T>)
    ensures |r| == if |xs| <= 3 then |xs| else 3
    ensures r == xs[|xs| - |r|..]
  {
    if |xs| <= 3 then xs else xs[|xs| - 3..]
  }

  /** `[float(n) for n in tokens]`, with `float` given as `toNum`: the list of
      numbers when every token converts, otherwise the ValueError raised by the
      first token that does not (every such error is the same ValueError). */
  function ParseNumbers(tokens: seq<string>, toNum: string -> Option<real>): (r: Result<seq<real>>)
    ensures r.Ok? <==> forall k :: 0 <= k < |tokens| ==> toNum(tokens[k]).Some?
    ensures r.Ok? ==> |r.value| == |tokens|
                      && forall k :: 0 <= k < |tokens| ==> r.value[k] == toNum(tokens[k]).value
    ensures r.Err? ==> r.error == NotAFloat
  {
    if forall k :: 0 <= k < |tokens| ==> toNum(tokens[k]).Some? then
      Ok(seq(|tokens|, k requires 0 <= k < |tokens| => toNum(tokens[k]).value))
    else
      Err(NotAFloat)
  }
}
