/**
 * String operations of the Python standard library that the bot relies on,
 * written out over `seq<char>`: `str.replace`, `str.strip`, `str.join` and the
 * decimal rendering of a natural number by an f-string.
 */
module Text {

  /* ---------------------------------------------------------------------
   * Occurrences of a pattern
   * --------------------------------------------------------------------- */

  /** `q` occurs in `s` starting at index `i`. */
  predicate At(s: string, q: string, i: int) {
    0 <= i && i + |q| <= |s| && s[i..i + |q|] == q
  }

  /** `q` occurs somewhere in `s` (Python's `q in s`). */
  predicate Contains(s: string, q: string) {
    exists i | 0 <= i <= |s| - |q| :: At(s, q, i)
  }

  /**
   * A markup tag such as `<b>` or `</strong>`: it opens with '<', closes with
   * '>' and holds neither bracket in between. Two different such words can
   * never overlap and none can sit inside another.
   */
  predicate Word(w: string) {
    && |w| >= 2
    && w[0] == '<'
    && w[|w| - 1] == '>'
    && forall k :: 0 < k < |w| - 1 ==> w[k] != '<' && w[k] != '>'
  }

  /** Python's `s.replace(pat, rep)`: left to right, non-overlapping. */
  function ReplaceAll(s: string, pat: string, rep: string): string
    requires pat != []
    decreases |s|
  {
    if |s| < |pat| then s
    else if s[..|pat|] == pat then rep + ReplaceAll(s[|pat|..], pat, rep)
    else [s[0]] + ReplaceAll(s[1..], pat, rep)
  }

  lemma AtChars(s: string, q: string, i: int)
    requires At(s, q, i)
    ensures forall k :: 0 <= k < |q| ==> s[i + k] == q[k]
  {
    forall k | 0 <= k < |q| ensures s[i + k] == q[k] {
      assert s[i..i + |q|][k] == s[i + k];
    }
  }

  /** A pattern absent from `s` is absent from every suffix of `s`. */
  lemma AbsentFromSuffix(s: string, k: int, q: string)
    requires 0 <= k <= |s| && !Contains(s, q)
    ensures !Contains(s[k..], q)
  {
    forall i | At(s[k..], q, i) ensures false {
      assert s[k..][i..i + |q|] == s[i + k..i + k + |q|];
      assert At(s, q, i + k);
    }
  }

  /** A pattern absent from `s` is absent from every prefix of `s`. */
  lemma AbsentFromPrefix(s: string, k: int, q: string)
    requires 0 <= k <= |s| && !Contains(s, q)
    ensures !Contains(s[..k], q)
  {
    forall i | 0 <= i <= k - |q| ensures !At(s[..k], q, i) {
      assert s[..k][i..i + |q|] == s[i..i + |q|];
      assert !At(s, q, i);
    }
  }

  /** Putting a word `r` in front of text free of word `q` cannot create `q`. */
  lemma AbsentAfterWord(r: string, y: string, q: string)
    requires Word(r) && Word(q) && q != r && !Contains(y, q)
    ensures !Contains(r + y, q)
  {
    var z := r + y;
    forall i | 0 <= i <= |z| - |q| ensures !At(z, q, i) {
      if i >= |r| {
        assert z[i..i + |q|] == y[i - |r|..i - |r| + |q|];
        assert !At(y, q, i - |r|);
      } else if i > 0 {
        NotAtChar(z, q, i, 0);
      } else if |q| < |r| {
        NotAtChar(z, q, i, |q| - 1);
      } else if |q| == |r| {
        assert z[..|q|] == r;
      } else {
        NotAtChar(z, q, i, |r| - 1);
      }
    }
  }

  /** Putting a word `r` after text free of word `q` cannot create `q`. */
  lemma AbsentBeforeWord(x: string, r: string, q: string)
    requires Word(r) && Word(q) && q != r && !Contains(x, q)
    ensures !Contains(x + r, q)
  {
    var z := x + r;
    forall i | 0 <= i <= |z| - |q| ensures !At(z, q, i) {
      var e := i + |q| - 1;
      if e < |x| {
        assert z[i..i + |q|] == x[i..i + |q|];
        assert !At(x, q, i);
      } else if e < |x| + |r| - 1 {
        NotAtChar(z, q, i, |q| - 1);
      } else if i > |x| {
        NotAtChar(z, q, i, 0);
      } else if i == |x| {
        assert z[i..i + |q|] == r;
      } else {
        NotAtChar(z, q, i, |x| - i);
      }
    }
  }

  /** Two strings that differ in one character are not equal. */
  lemma NotAtChar(s: string, q: string, i: int, k: int)
    requires 0 <= i && i + |q| <= |s| && 0 <= k < |q|
    requires s[i + k] != q[k]
    ensures !At(s, q, i)
  {
    assert s[i..i + |q|][k] == s[i + k];
  }

  /**
   * When the first `m` characters of a replacement's output hold no '<' (and
   * the replacement text starts with '<'), those characters were copied
   * unchanged from the input.
   */
  lemma {:induction false} CopiedPrefix(t: string, p: string, r: string, m: nat)
    requires p != [] && r != [] && r[0] == '<'
    requires m <= |ReplaceAll(t, p, r)|
    requires forall k :: 0 <= k < m ==> ReplaceAll(t, p, r)[k] != '<'
    ensures m <= |t| && ReplaceAll(t, p, r)[..m] == t[..m]
    decreases |t|
  {
    var out := ReplaceAll(t, p, r);
    if |t| < |p| {
    } else if t[..|p|] == p {
      assert out[0] == r[0];
    } else if m > 0 {
      var rest := ReplaceAll(t[1..], p, r);
      assert out == [t[0]] + rest;
      forall k | 0 <= k < m - 1 ensures rest[k] != '<' {
        assert rest[k] == out[k + 1];
      }
      CopiedPrefix(t[1..], p, r, m - 1);
      assert out[..m] == [t[0]] + rest[..m - 1];
      assert t[..m] == [t[0]] + t[1..][..m - 1];
    }
  }

  /**
   * Replacing the word `p` by the word `r` leaves no `p` behind, and creates
   * no other word `q` (other than `r` itself) that was absent before.
   */
  lemma {:induction false} ReplaceLeavesAbsent(s: string, p: string, r: string, q: string)
    requires Word(p) && Word(r) && Word(q) && q != r
    requires q == p || !Contains(s, q)
    ensures !Contains(ReplaceAll(s, p, r), q)
    decreases |s|
  {
    var out := ReplaceAll(s, p, r);
    if |s| < |p| {
    } else if s[..|p|] == p {
      if q != p {
        AbsentFromSuffix(s, |p|, q);
      }
      ReplaceLeavesAbsent(s[|p|..], p, r, q);
      AbsentAfterWord(r, ReplaceAll(s[|p|..], p, r), q);
    } else {
      if q != p {
        AbsentFromSuffix(s, 1, q);
      }
      ReplaceLeavesAbsent(s[1..], p, r, q);
      var rest := ReplaceAll(s[1..], p, r);
      assert out == [s[0]] + rest;
      assert out[1..] == rest;
      if At(out, q, 0) {
        CopiedWord(s, p, r, q);
      }
      AbsentAfterFirst(out, q);
    }
  }

  /** A pattern absent from `s[1..]` and not at index 0 is absent from `s`. */
  lemma AbsentAfterFirst(s: string, q: string)
    requires |s| > 0 && !Contains(s[1..], q) && !At(s, q, 0)
    ensures !Contains(s, q)
  {
    forall i | 0 < i <= |s| - |q| ensures !At(s, q, i) {
      SliceOfTail(s, i, |q|);
      assert !At(s[1..], q, i - 1);
    }
  }

  lemma SliceOfTail<T>(s: seq<T>, i: int, n: int)
    requires 1 <= i && 0 <= n && i + n <= |s|
    ensures s[1..][i - 1..i - 1 + n] == s[i..i + n]
  {
  }

  /**
   * A word `q` at the very start of the output, where the input did not start
   * with `p`, was already at the start of the input.
   */
  lemma CopiedWord(s: string, p: string, r: string, q: string)
    requires p != [] && r != [] && r[0] == '<' && Word(q)
    requires |s| >= |p| && s[..|p|] != p
    requires At(ReplaceAll(s, p, r), q, 0)
    ensures At(s, q, 0)
  {
    var out := ReplaceAll(s, p, r);
    var rest := ReplaceAll(s[1..], p, r);
    var m := |q| - 1;
    assert out == [s[0]] + rest;
    TailOfWord(out, q);
    assert out[1..] == rest;
    CopiedPrefix(s[1..], p, r, m);
    SplitFirst(out, m);
    SplitFirst(s, m);
    assert q == out[..m + 1];
  }

  /** The first `m + 1` elements are the head followed by `m` of the tail. */
  lemma SplitFirst<T>(x: seq<T>, m: int)
    requires 0 <= m < |x|
    ensures x[..m + 1] == [x[0]] + x[1..][..m]
  {
  }

  /** After its first character, a word at the start of `[c] + rest` holds no '<'. */
  lemma TailOfWord(out: string, q: string)
    requires Word(q) && At(out, q, 0)
    ensures |q| - 1 <= |out[1..]|
    ensures forall k :: 0 <= k < |q| - 1 ==> out[1..][k] != '<'
  {
    AtChars(out, q, 0);
  }

  /** Replacing a pattern that does not occur changes nothing. */
  lemma {:induction false} ReplaceAbsent(s: string, p: string, r: string)
    requires p != [] && !Contains(s, p)
    ensures ReplaceAll(s, p, r) == s
    decreases |s|
  {
    if |s| >= |p| {
      assert !At(s, p, 0);
      AbsentFromSuffix(s, 1, p);
      ReplaceAbsent(s[1..], p, r);
      assert s == [s[0]] + s[1..];
    }
  }

  /** What one word becomes under `replace(p, r)`: `r` if it is `p`, else itself. */
  function Renamed(w: string, p: string, r: string): string {
    if w == p then r else w
  }

  /** Away from a match, `replace` copies the first character and goes on. */
  lemma ReplaceCopyStep(a: string, p: string, r: string)
    requires p != [] && a != [] && !(|a| >= |p| && a[..|p|] == p)
    ensures ReplaceAll(a, p, r) == [a[0]] + ReplaceAll(a[1..], p, r)
  {
    if |a| < |p| {
      assert a == [a[0]] + a[1..];
    }
  }

  /** Text without `<` before `b` is copied unchanged by a replacement of a pattern starting with `<`. */
  lemma {:induction false} ReplaceCopiesFree(c: string, b: string, p: string, r: string)
    requires p != [] && p[0] == '<'
    requires forall k :: 0 <= k < |c| ==> c[k] != '<'
    ensures ReplaceAll(c + b, p, r) == c + ReplaceAll(b, p, r)
    decreases |c|
  {
    if c == [] {
      assert c + b == b;
    } else {
      var s := c + b;
      assert s[0] == c[0] && s[1..] == c[1..] + b;
      if |s| >= |p| {
        assert s[..|p|][0] == c[0];
      }
      ReplaceCopyStep(s, p, r);
      ReplaceCopiesFree(c[1..], b, p, r);
      ConcatAssoc([c[0]], c[1..], ReplaceAll(b, p, r), c[1..] + ReplaceAll(b, p, r));
      assert [c[0]] + c[1..] == c;
    }
  }

  /** A word `p` cannot start a text that starts with a different word `w`. */
  lemma WordStartsNoOther(w: string, b: string, p: string)
    requires Word(w) && Word(p) && w != p
    ensures !(|w + b| >= |p| && (w + b)[..|p|] == p)
  {
    var s := w + b;
    if |s| >= |p| {
      if |p| < |w| {
        assert s[..|p|][|p| - 1] == w[|p| - 1];
      } else if |p| == |w| {
        assert s[..|p|] == w;
      } else {
        assert s[..|p|][|w| - 1] == w[|w| - 1];
      }
    }
  }

  /** A word `p` cannot start inside a short text `a` and run into the word `w` that follows. */
  lemma WordNoStraddle(a: string, w: string, b: string, p: string)
    requires Word(w) && Word(p) && 0 < |a| < |p|
    ensures !(|a + w + b| >= |p| && (a + w + b)[..|p|] == p)
  {
    var s := a + w + b;
    if |s| >= |p| {
      assert s[..|p|][|a|] == w[0];
    }
  }

  /**
   * `replace(p, r)` of a text `a + w + b` around a word `w` works on each
   * side separately: no match of the word `p` can overlap `w` unless it is `w`.
   */
  lemma {:induction false} ReplaceAroundWord(a: string, w: string, b: string, p: string, r: string)
    requires Word(w) && Word(p)
    ensures ReplaceAll(a + w + b, p, r) == ReplaceAll(a, p, r) + Renamed(w, p, r) + ReplaceAll(b, p, r)
    decreases |a|
  {
    if a == [] {
      assert a + w + b == w + b;
      AroundStart(w, b, p, r);
    } else if |a| >= |p| && a[..|p|] == p {
      ReplaceAroundWord(a[|p|..], w, b, p, r);
      AroundMatch(a, w, b, p, r);
    } else {
      ReplaceAroundWord(a[1..], w, b, p, r);
      AroundCopy(a, w, b, p, r);
    }
  }

  lemma AroundStart(w: string, b: string, p: string, r: string)
    requires Word(w) && Word(p)
    ensures ReplaceAll(w + b, p, r) == Renamed(w, p, r) + ReplaceAll(b, p, r)
  {
    var s := w + b;
    if w == p {
      assert s[..|p|] == p && s[|p|..] == b;
    } else {
      WordStartsNoOther(w, b, p);
      ReplaceCopyStep(s, p, r);
      assert s[0] == w[0] && s[1..] == w[1..] + b;
      ReplaceCopiesFree(w[1..], b, p, r);
      ConcatAssoc([w[0]], w[1..], ReplaceAll(b, p, r), w[1..] + ReplaceAll(b, p, r));
      assert [w[0]] + w[1..] == w;
    }
  }

  lemma AroundMatch(a: string, w: string, b: string, p: string, r: string)
    requires Word(w) && Word(p) && |a| >= |p| && a[..|p|] == p
    requires ReplaceAll(a[|p|..] + w + b, p, r) == ReplaceAll(a[|p|..], p, r) + Renamed(w, p, r) + ReplaceAll(b, p, r)
    ensures ReplaceAll(a + w + b, p, r) == ReplaceAll(a, p, r) + Renamed(w, p, r) + ReplaceAll(b, p, r)
  {
    var s := a + w + b;
    assert s[..|p|] == a[..|p|];
    assert s[|p|..] == a[|p|..] + w + b;
    var x := ReplaceAll(a[|p|..], p, r);
    var v := Renamed(w, p, r);
    var y := ReplaceAll(b, p, r);
    assert ReplaceAll(s, p, r) == r + (x + v + y);
    assert ReplaceAll(a, p, r) == r + x;
    ConcatAssoc(r, x + v, y, x + v + y);
    ConcatAssoc(r, x, v, x + v);
  }

  lemma AroundCopy(a: string, w: string, b: string, p: string, r: string)
    requires Word(w) && Word(p) && a != [] && !(|a| >= |p| && a[..|p|] == p)
    requires ReplaceAll(a[1..] + w + b, p, r) == ReplaceAll(a[1..], p, r) + Renamed(w, p, r) + ReplaceAll(b, p, r)
    ensures ReplaceAll(a + w + b, p, r) == ReplaceAll(a, p, r) + Renamed(w, p, r) + ReplaceAll(b, p, r)
  {
    var s := a + w + b;
    if |a| >= |p| {
      assert s[..|p|] == a[..|p|];
    } else {
      WordNoStraddle(a, w, b, p);
    }
    ReplaceCopyStep(s, p, r);
    ReplaceCopyStep(a, p, r);
    TailOfConcat(a, w, b, s);
    var x := ReplaceAll(a[1..], p, r);
    var v := Renamed(w, p, r);
    var y := ReplaceAll(b, p, r);
    assert ReplaceAll(s, p, r) == [a[0]] + (x + v + y);
    assert ReplaceAll(a, p, r) == [a[0]] + x;
    ConcatAssoc([a[0]], x + v, y, x + v + y);
    ConcatAssoc([a[0]], x, v, x + v);
  }

  lemma TailOfConcat<T>(a: seq<T>, w: seq<T>, b: seq<T>, s: seq<T>)
    requires a != [] && s == a + w + b
    ensures s[0] == a[0] && s[1..] == a[1..] + w + b
  {
    assert s == [a[0]] + (a[1..] + w + b);
  }

  /** Text free of word `q` stays free of it when framed by two other words. */
  lemma AbsentBetweenWords(a: string, x: string, b: string, q: string)
    requires Word(a) && Word(b) && Word(q) && q != a && q != b && !Contains(x, q)
    ensures !Contains(a + x + b, q)
  {
    AbsentBeforeWord(x, b, q);
    AbsentAfterWord(a, x + b, q);
    assert a + x + b == a + (x + b);
  }

  /* ---------------------------------------------------------------------
   * Whitespace and strip
   * --------------------------------------------------------------------- */

  /** The characters Python's `str.isspace` accepts. */
  predicate IsSpace(c: char) {
    || c == ' '
    || '\t' <= c <= '\r'
    || '\U{1c}' <= c <= '\U{1f}'
    || c == '\U{85}' || c == '\U{a0}' || c == '\U{1680}'
    || '\U{2000}' <= c <= '\U{200a}'
    || c == '\U{2028}' || c == '\U{2029}' || c == '\U{202f}' || c == '\U{205f}' || c == '\U{3000}'
  }

  predicate AllSpace(s: string) {
    forall i :: 0 <= i < |s| ==> IsSpace(s[i])
  }

  /** Neither end of `s` is whitespace. */
  predicate Trimmed(s: string) {
    s == [] || (!IsSpace(s[0]) && !IsSpace(s[|s| - 1]))
  }

  /** How many whitespace characters `s` starts with. */
  function LeadingSpaces(s: string): (n: nat)
    ensures n <= |s|
  {
    if s != [] && IsSpace(s[0]) then 1 + LeadingSpaces(s[1..]) else 0
  }

  /** The length of `s` without the whitespace it ends with. */
  function TrailingStart(s: string): (n: nat)
    ensures n <= |s|
  {
    if s != [] && IsSpace(s[|s| - 1]) then TrailingStart(s[..|s| - 1]) else |s|
  }

  /** Python's `s.strip()`. */
  function Strip(s: string): string {
    var l := s[LeadingSpaces(s)..];
    l[..TrailingStart(l)]
  }

  lemma {:induction false} LeadingSpacesStop(s: string)
    ensures AllSpace(s[..LeadingSpaces(s)])
    ensures LeadingSpaces(s) < |s| ==> !IsSpace(s[LeadingSpaces(s)])
  {
    if s != [] && IsSpace(s[0]) {
      LeadingSpacesStop(s[1..]);
      assert s[..LeadingSpaces(s)] == [s[0]] + s[1..][..LeadingSpaces(s[1..])];
    }
  }

  lemma {:induction false} TrailingStartStop(s: string)
    ensures AllSpace(s[TrailingStart(s)..])
    ensures TrailingStart(s) > 0 ==> !IsSpace(s[TrailingStart(s) - 1])
  {
    if s != [] && IsSpace(s[|s| - 1]) {
      TrailingStartStop(s[..|s| - 1]);
      assert s[TrailingStart(s)..] == s[..|s| - 1][TrailingStart(s)..] + [s[|s| - 1]];
    }
  }

  /** A prefix `r` of length `j` of the suffix `l` of `s` from `i` on is a slice of `s`. */
  lemma TakeOfDrop<T>(s: seq<T>, i: int, l: seq<T>, j: int, r: seq<T>)
    requires 0 <= i <= |s| && l == s[i..] && 0 <= j <= |l| && r == l[..j]
    ensures |r| == j && i + j <= |s| && r == s[i..i + j] && s[i + j..] == l[j..]
  {
  }

  /** `Strip(s)` neither starts nor ends with whitespace. */
  lemma StripEnds(s: string)
    ensures Trimmed(Strip(s))
  {
    var i := LeadingSpaces(s);
    var l := s[i..];
    var j := TrailingStart(l);
    LeadingSpacesStop(s);
    TrailingStartStop(l);
    var r := Strip(s);
    assert r == l[..j];
    if j > 0 {
      assert r[0] == l[0] == s[i];
      assert r[j - 1] == l[j - 1];
    }
  }

  /**
   * `Strip(s)` is the slice of `s` left after removing the whitespace at both
   * ends, and nothing else: `s == lead + Strip(s) + trail` with `lead` and
   * `trail` all whitespace, and `Strip(s)` has no whitespace at either end.
   */
  lemma StripFrame(s: string)
    ensures Trimmed(Strip(s))
    ensures var i := LeadingSpaces(s);
            && i + |Strip(s)| <= |s|
            && Strip(s) == s[i..i + |Strip(s)|]
            && AllSpace(s[..i]) && AllSpace(s[i + |Strip(s)|..])
  {
    var i := LeadingSpaces(s);
    var l := s[i..];
    TakeOfDrop(s, i, l, TrailingStart(l), Strip(s));
    StripEnds(s);
    LeadingSpacesStop(s);
    TrailingStartStop(l);
  }

  /** Text with no whitespace at either end is left alone by `Strip`. */
  lemma StripTrimmed(s: string)
    requires Trimmed(s)
    ensures Strip(s) == s
  {
    assert LeadingSpaces(s) == 0;
    assert s[0..] == s;
  }

  /** `Strip` is idempotent. */
  lemma StripIdempotent(s: string)
    ensures Strip(Strip(s)) == Strip(s)
  {
    StripFrame(s);
    StripTrimmed(Strip(s));
  }

  /* ---------------------------------------------------------------------
   * Join
   * --------------------------------------------------------------------- */

  /**
   * Regrouping a concatenation whose tail is known only by name; keeping
   * this step apart spares the callers' proofs an unfolding search.
   */
  lemma ConcatAssoc<T>(a: seq<T>, b: seq<T>, c: seq<T>, w: seq<T>)
    requires w == b + c
    ensures a + w == a + b + c
  {
  }

  /** A non-empty sequence is its front followed by its last element. */
  lemma FrontLast<T>(s: seq<T>)
    requires s != []
    ensures s[..|s| - 1] + [s[|s| - 1]] == s
  {
  }

  /** Python's `sep.join(xs)`. */
  function Join(sep: string, xs: seq<string>): string
  {
    if xs == [] then ""
    else if |xs| == 1 then xs[0]
    else xs[0] + sep + Join(sep, xs[1..])
  }

  /** Joining one more item appends the separator and that item. */
  lemma {:induction false} JoinSnoc(sep: string, xs: seq<string>, x: string)
    requires xs != []
    ensures Join(sep, xs + [x]) == Join(sep, xs) + sep + x
  {
    if |xs| > 1 {
      assert (xs + [x])[1..] == xs[1..] + [x];
      JoinSnoc(sep, xs[1..], x);
    }
  }

  /** Joining a single item gives that item. */
  lemma JoinSingle(sep: string, x: string)
    ensures Join(sep, [x]) == x
  {
  }

  /** Where item `i` starts in `Join(sep, xs)`: after the items before it and one separator each. */
  function JoinOffset(sep: string, xs: seq<string>, i: nat): nat
    requires i <= |xs|
  {
    TotalLength(xs[..i]) + i * |sep|
  }

  /** Each item appears in the join, at its offset. */
  lemma {:induction false} JoinAt(sep: string, xs: seq<string>, i: nat)
    requires i < |xs|
    ensures JoinOffset(sep, xs, i) + |xs[i]| <= |Join(sep, xs)|
    ensures Join(sep, xs)[JoinOffset(sep, xs, i)..JoinOffset(sep, xs, i) + |xs[i]|] == xs[i]
  {
    if i == 0 {
      assert xs[..0] == [];
    } else {
      var rest := xs[1..];
      JoinAt(sep, rest, i - 1);
      JoinOffsetStep(sep, xs, i);
      assert rest[i - 1] == xs[i];
      SliceAfter(xs[0] + sep, Join(sep, rest), JoinOffset(sep, rest, i - 1), |xs[i]|);
    }
  }

  /** Past the first item, offsets grow by that item and one separator. */
  lemma JoinOffsetStep(sep: string, xs: seq<string>, i: nat)
    requires 0 < i <= |xs|
    ensures JoinOffset(sep, xs, i) == |xs[0]| + |sep| + JoinOffset(sep, xs[1..], i - 1)
  {
    assert xs[..i][1..] == xs[1..][..i - 1];
    assert i * |sep| == |sep| + (i - 1) * |sep|;
  }

  /** A slice past a prefix `a` of `a + b` is the matching slice of `b`. */
  lemma SliceAfter<T>(a: seq<T>, b: seq<T>, o: int, l: int)
    requires 0 <= o && 0 <= l && o + l <= |b|
    ensures (a + b)[|a| + o..|a| + o + l] == b[o..o + l]
  {
  }

  /** In `h + n + t`, `h` opens it, `t` closes it, and a slice of `n` sits after `h`. */
  lemma MiddleSlice<T>(h: seq<T>, n: seq<T>, t: seq<T>, s: seq<T>, o: int, l: int)
    requires s == h + n + t && 0 <= o && 0 <= l && o + l <= |n|
    ensures s[..|h|] == h && |h| + o + l <= |s| && s[|h| + o..|h| + o + l] == n[o..o + l]
    ensures |t| <= |s| && s[|s| - |t|..] == t
  {
    assert s[..|h| + |n|] == h + n;
    assert (h + n)[|h|..] == n;
  }

  /** The separator count: `|Join(sep, xs)|` is the items' lengths plus `|xs| - 1` separators. */
  function TotalLength(xs: seq<string>): nat {
    if xs == [] then 0 else |xs[0]| + TotalLength(xs[1..])
  }

  lemma {:induction false} JoinLength(sep: string, xs: seq<string>)
    requires xs != []
    ensures |Join(sep, xs)| == TotalLength(xs) + (|xs| - 1) * |sep|
  {
    if |xs| > 1 {
      JoinLength(sep, xs[1..]);
    }
  }

  /* ---------------------------------------------------------------------
   * Decimal numerals
   * --------------------------------------------------------------------- */

  predicate IsDigit(c: char) {
    '0' <= c <= '9'
  }

  function DigitChar(d: nat): (c: char)
    requires d < 10
    ensures IsDigit(c) && (c as int) - ('0' as int) == d
  {
    "0123456789"[d]
  }

  /** Decimal rendering of `n`, as `f"{n}"` prints it. */
  function NatToString(n: nat): (r: string)
    ensures r != [] && forall i :: 0 <= i < |r| ==> IsDigit(r[i])
    ensures r[0] == '0' ==> n == 0 && r == "0"
  {
    if n < 10 then [DigitChar(n)] else NatToString(n / 10) + [DigitChar(n % 10)]
  }

  function DigitValue(c: char): nat
    requires IsDigit(c)
  {
    (c as int) - ('0' as int)
  }

  /** The value of a string of decimal digits. */
  function ParseNat(s: string): nat
    requires forall i :: 0 <= i < |s| ==> IsDigit(s[i])
  {
    if s == [] then 0 else 10 * ParseNat(s[..|s| - 1]) + DigitValue(s[|s| - 1])
  }

  /** Reading back a rendered number gives the number. */
  lemma {:induction false} ParseNatToString(n: nat)
    ensures ParseNat(NatToString(n)) == n
  {
    var r := NatToString(n);
    if n >= 10 {
      ParseNatToString(n / 10);
      assert r[..|r| - 1] == NatToString(n / 10);
    } else {
      assert r[..0] == [];
    }
  }
}
