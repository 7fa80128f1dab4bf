/**
 * The Python built-ins the clipper relies on, stated on Dafny values:
 * `str.lower`, `str.split()`, the substring test `w in t`, list slicing
 * `s[:n]`, `random.uniform`, `os.path.join` (POSIX) and the decimal
 * rendering of an `int` inside an f-string.
 */
module PyBuiltins {

  // ---------------------------------------------------------------------
  // str.lower
  // ---------------------------------------------------------------------

  predicate IsUpperAscii(c: char) {
    'A' <= c <= 'Z'
  }

  function LowerChar(c: char): char {
    if IsUpperAscii(c) then (c as int + 32) as char else c
  }

  /** `s.lower()`, restricted to the ASCII letters (see README). */
  function Lower(s: string): string {
    if s == [] then [] else [LowerChar(s[0])] + Lower(s[1..])
  }

  /**
   * The lower-cased string has the same length and no ASCII capital; every
   * other character is kept and each capital becomes its small letter.
   */
  lemma {:induction false} LowerSpec(s: string)
    ensures var r := Lower(s);
      |r| == |s| &&
      (forall i :: 0 <= i < |r| ==> !IsUpperAscii(r[i])) &&
      (forall i :: 0 <= i < |s| && !IsUpperAscii(s[i]) ==> r[i] == s[i]) &&
      (forall i :: 0 <= i < |s| && IsUpperAscii(s[i]) ==> r[i] as int == s[i] as int + 32)
  {
    if s != [] {
      LowerSpec(s[1..]);
      var r := Lower(s);
      assert forall i :: 1 <= i < |s| ==> r[i] == Lower(s[1..])[i - 1] && s[i] == s[1..][i - 1];
    }
  }

  // ---------------------------------------------------------------------
  // w in t
  // ---------------------------------------------------------------------

  /** `w` occurs in `t` starting at index `i`. */
  ghost predicate OccursAt(w: string, t: string, i: int) {
    0 <= i && i + |w| <= |t| && t[i..i + |w|] == w
  }

  /** Python's `w in t` for two strings: a contiguous occurrence (the empty string occurs everywhere). */
  function Contains(t: string, w: string): bool
    decreases |t|
  {
    if |w| > |t| then false
    else if t[..|w|] == w then true
    else Contains(t[1..], w)
  }

  /** `w in t` holds exactly when `w` occurs in `t` at some index. */
  lemma {:induction false} ContainsSpec(t: string, w: string)
    ensures Contains(t, w) <==> exists i :: OccursAt(w, t, i)
    decreases |t|
  {
    if |w| > |t| {
    } else if t[..|w|] == w {
      assert OccursAt(w, t, 0);
    } else {
      ContainsSpec(t[1..], w);
      ContainsShift(t, w);
    }
  }

  /** Occurrences in `t[1..]` are the occurrences in `t` past index 0. */
  lemma ContainsShift(t: string, w: string)
    requires |t| > 0
    ensures (exists i :: OccursAt(w, t[1..], i)) <==> (exists i :: OccursAt(w, t, i) && i > 0)
  {
    forall i | OccursAt(w, t[1..], i) ensures OccursAt(w, t, i + 1) {
      assert t[1..][i..i + |w|] == t[i + 1..i + 1 + |w|];
    }
    forall i | OccursAt(w, t, i) && i > 0 ensures OccursAt(w, t[1..], i - 1) {
      assert t[1..][i - 1..i - 1 + |w|] == t[i..i + |w|];
    }
  }

  // ---------------------------------------------------------------------
  // str.split() with no separator
  // ---------------------------------------------------------------------

  /** The code points `str.split()` treats as separators (those `str.isspace()` accepts). */
  predicate IsSpace(c: char) {
    var n := c as int;
    (0x09 <= n <= 0x0D) || (0x1C <= n <= 0x20) || n == 0x85 || n == 0xA0 || n == 0x1680
    || (0x2000 <= n <= 0x200A) || n == 0x2028 || n == 0x2029 || n == 0x202F || n == 0x205F
    || n == 0x3000
  }

  predicate NoSpace(w: string) {
    forall i :: 0 <= i < |w| ==> !IsSpace(w[i])
  }

  /** Length of the run of non-separators at the front of `s`. */
  function WordLength(s: string): (n: nat)
    ensures n <= |s|
    ensures NoSpace(s[..n])
    ensures n == |s| || IsSpace(s[n])
  {
    if s == [] || IsSpace(s[0]) then 0
    else
      var m := WordLength(s[1..]);
      assert s[..1 + m] == [s[0]] + s[1..][..m];
      1 + m
  }

  /** The characters of `s` that are not separators, in order. */
  function NonSpace(s: string): string {
    if s == [] then [] else (if IsSpace(s[0]) then [] else [s[0]]) + NonSpace(s[1..])
  }

  function Concat(ws: seq<string>): string {
    if ws == [] then [] else ws[0] + Concat(ws[1..])
  }

  lemma {:induction false} NonSpacePrefix(s: string, n: nat)
    requires n <= |s| && NoSpace(s[..n])
    ensures NonSpace(s) == s[..n] + NonSpace(s[n..])
  {
    if n > 0 {
      assert !IsSpace(s[..n][0]);
      assert NoSpace(s[1..][..n - 1]) by {
        assert s[1..][..n - 1] == s[..n][1..];
      }
      NonSpacePrefix(s[1..], n - 1);
      assert s[1..][n - 1..] == s[n..];
      assert s[..n] == [s[0]] + s[1..][..n - 1];
    } else {
      assert s[n..] == s;
    }
  }

  /** `s.split()`: the maximal runs of non-separators, in order. */
  function Split(s: string): seq<string>
    decreases |s|
  {
    if s == [] then []
    else if IsSpace(s[0]) then Split(s[1..])
    else
      var n := WordLength(s);
      [s[..n]] + Split(s[n..])
  }

  /** Every entry is a non-empty run of non-separators. */
  predicate Words(ws: seq<string>) {
    forall k :: 0 <= k < |ws| ==> ws[k] != [] && NoSpace(ws[k])
  }

  predicate WordsOf(s: string, ws: seq<string>) {
    Words(ws) && Concat(ws) == NonSpace(s)
  }

  /**
   * The words `s.split()` yields are non-empty and separator-free, and
   * together they hold exactly the non-separator characters of `s`, in order.
   */
  lemma {:induction false} SplitSpec(s: string)
    ensures WordsOf(s, Split(s))
    decreases |s|
  {
    if s == [] {
    } else if IsSpace(s[0]) {
      SplitSpec(s[1..]);
    } else {
      var n := WordLength(s);
      var rest := Split(s[n..]);
      SplitSpec(s[n..]);
      NonSpacePrefix(s, n);
      assert ([s[..n]] + rest)[1..] == rest;
      assert forall k :: 1 <= k < |rest| + 1 ==> ([s[..n]] + rest)[k] == rest[k - 1];
    }
  }

  /** `" ".join(ws)`. */
  function Join(ws: seq<string>): string {
    if ws == [] then [] else ws[0] + Spaced(ws[1..])
  }

  /** Every word of `ws` preceded by one space. */
  function Spaced(ws: seq<string>): string {
    if ws == [] then [] else [' '] + ws[0] + Spaced(ws[1..])
  }

  /**
   * Independent reference for `" ".join(s.split())`: a scan that drops the
   * separators before the first word and after the last one and turns every
   * run of separators between two words into one space. `pending` records
   * a run seen since the last word, `started` that a word has been seen.
   */
  function Squeeze(s: string, pending: bool, started: bool): string {
    if s == [] then []
    else if IsSpace(s[0]) then Squeeze(s[1..], started, started)
    else (if pending then [' '] else []) + [s[0]] + Squeeze(s[1..], false, true)
  }

  lemma {:induction false} SqueezeWord(t: string, m: nat)
    requires m <= |t| && NoSpace(t[..m])
    ensures Squeeze(t, false, true) == t[..m] + Squeeze(t[m..], false, true)
  {
    if m == 0 {
      assert t[m..] == t;
    } else {
      assert !IsSpace(t[..m][0]);
      assert t[1..][..m - 1] == t[..m][1..];
      SqueezeWord(t[1..], m - 1);
      assert t[1..][m - 1..] == t[m..];
      assert t[..m] == [t[0]] + t[1..][..m - 1];
    }
  }

  lemma {:induction false} SqueezePending(s: string)
    ensures Squeeze(s, true, true) == Spaced(Split(s))
    decreases |s|, 1
  {
    if s == [] {
    } else if IsSpace(s[0]) {
      SqueezePending(s[1..]);
    } else {
      var n := WordLength(s);
      assert s[1..][..n - 1] == s[..n][1..];
      SqueezeWord(s[1..], n - 1);
      assert s[1..][n - 1..] == s[n..];
      assert s[..n] == [s[0]] + s[1..][..n - 1];
      SqueezeAfter(s[n..]);
      assert ([s[..n]] + Split(s[n..]))[1..] == Split(s[n..]);
    }
  }

  lemma {:induction false} SqueezeAfter(u: string)
    requires u == [] || IsSpace(u[0])
    ensures Squeeze(u, false, true) == Spaced(Split(u))
    decreases |u|, 0
  {
    if u != [] {
      SqueezePending(u[1..]);
    }
  }

  /** `" ".join(s.split())` is the text with its separator runs squeezed. */
  lemma {:induction false} SplitJoin(s: string)
    ensures Join(Split(s)) == Squeeze(s, false, false)
    decreases |s|
  {
    if s == [] {
    } else if IsSpace(s[0]) {
      SplitJoin(s[1..]);
    } else {
      SqueezePending(s);
      SqueezeStart(s);
      SpacedJoin(Split(s));
      DropSpace(Join(Split(s)), Squeeze(s, false, false));
    }
  }

  lemma SqueezeStart(s: string)
    requires s != [] && !IsSpace(s[0])
    ensures Split(s) != []
    ensures Squeeze(s, true, true) == [' '] + Squeeze(s, false, false)
  {
  }

  lemma SpacedJoin(ws: seq<string>)
    requires ws != []
    ensures Spaced(ws) == [' '] + Join(ws)
  {
  }

  lemma DropSpace(x: string, y: string)
    requires [' '] + x == [' '] + y
    ensures x == y
  {
    assert x == ([' '] + x)[1..];
  }

  /** The first word of `w + t` is `w` when `t` is empty or starts with a separator. */
  lemma {:induction false} FirstWord(w: string, t: string)
    requires NoSpace(w) && (t == [] || IsSpace(t[0]))
    ensures WordLength(w + t) == |w|
  {
    if w != [] {
      assert (w + t)[0] == w[0];
      assert (w + t)[1..] == w[1..] + t;
      FirstWord(w[1..], t);
    } else {
      assert w + t == t;
    }
  }

  /** The first word of a join, and the rest of the join after it. */
  lemma JoinHead(a: seq<string>)
    requires Words(a) && a != []
    ensures var j := Join(a);
      WordLength(j) == |a[0]| <= |j| && j[..|a[0]|] == a[0] && j[|a[0]|..] == Spaced(a[1..])
  {
    FirstWord(a[0], Spaced(a[1..]));
  }

  lemma WordsTail(a: seq<string>)
    requires Words(a) && a != []
    ensures Words(a[1..])
  {
    forall k | 0 <= k < |a[1..]| ensures a[1..][k] == a[k + 1] { }
  }

  /** Joining words with single spaces loses nothing: the words can be read back. */
  lemma {:induction false} JoinInjective(a: seq<string>, b: seq<string>)
    requires Words(a) && Words(b) && Join(a) == Join(b)
    ensures a == b
    decreases |a|
  {
    if a == [] || b == [] {
    } else {
      JoinHead(a);
      JoinHead(b);
      var ra, rb := a[1..], b[1..];
      assert Spaced(ra) == Spaced(rb);
      if ra != [] && rb != [] {
        assert Join(ra) == Spaced(ra)[1..];
        assert Join(rb) == Spaced(rb)[1..];
        WordsTail(a);
        WordsTail(b);
        JoinInjective(ra, rb);
      } else {
        assert ra == [] <==> |Spaced(ra)| == 0;
        assert rb == [] <==> |Spaced(rb)| == 0;
      }
      assert a == [a[0]] + ra;
      assert b == [b[0]] + rb;
    }
  }

  /**
   * `s.split()` is the only list of words that joins back to the squeezed
   * text: the word boundaries are exactly the separator runs.
   */
  lemma SplitUnique(s: string, ws: seq<string>)
    requires Words(ws) && Join(ws) == Squeeze(s, false, false)
    ensures ws == Split(s)
  {
    SplitSpec(s);
    SplitJoin(s);
    JoinInjective(ws, Split(s));
  }

  /**
   * Independent reference for the number of words: the classic word-count
   * automaton that counts each switch from a separator (or the start) into
   * a non-separator.
   */
  function CountWords(s: string, inWord: bool): nat {
    if s == [] then 0
    else if IsSpace(s[0]) then CountWords(s[1..], false)
    else (if inWord then 0 else 1) + CountWords(s[1..], true)
  }

  lemma {:induction false} CountWordsInWord(t: string, m: nat)
    requires m <= |t| && NoSpace(t[..m]) && (m == |t| || IsSpace(t[m]))
    ensures CountWords(t, true) == CountWords(t[m..], false)
  {
    if m == 0 {
      assert t[m..] == t;
    } else {
      assert !IsSpace(t[..m][0]);
      assert t[1..][..m - 1] == t[..m][1..];
      assert t[1..][m - 1..] == t[m..];
      CountWordsInWord(t[1..], m - 1);
    }
  }

  /** `len(s.split())` agrees with the word-count automaton. */
  lemma {:induction false} SplitCount(s: string)
    ensures |Split(s)| == CountWords(s, false)
    decreases |s|
  {
    if s == [] {
    } else if IsSpace(s[0]) {
      SplitCount(s[1..]);
    } else {
      var n := WordLength(s);
      SplitCount(s[n..]);
      assert NoSpace(s[1..][..n - 1]) by {
        assert s[1..][..n - 1] == s[..n][1..];
      }
      CountWordsInWord(s[1..], n - 1);
      assert s[1..][n - 1..] == s[n..];
    }
  }

  // ---------------------------------------------------------------------
  // s[:n] on a list
  // ---------------------------------------------------------------------

  /** Python's `s[:n]`: a prefix of `s`; a negative `n` drops `-n` elements from the end. */
  function PyPrefix<T>(s: seq<T>, n: int): (r: seq<T>)
    ensures r <= s
    ensures 0 <= n ==> |r| == if n <= |s| then n else |s|
    ensures n < 0 ==> |r| == if |s| + n <= 0 then 0 else |s| + n
  {
    if 0 <= n then (if n <= |s| then s[..n] else s)
    else if |s| + n <= 0 then []
    else s[..|s| + n]
  }

  // ---------------------------------------------------------------------
  // random.uniform
  // ---------------------------------------------------------------------

  /**
   * `random.uniform(a, b)` computed as CPython does, `a + (b - a) * u`, where
   * `u` is the value `random.random()` returned, in [0, 1).
   */
  function Uniform(a: real, b: real, u: real): real
    requires 0.0 <= u < 1.0
  {
    a + (b - a) * u
  }

  /** The result of `random.uniform(a, b)` lies between the two endpoints, whichever is larger. */
  lemma UniformBounds(a: real, b: real, u: real)
    requires 0.0 <= u < 1.0
    ensures a <= b ==> a <= Uniform(a, b, u) <= b
    ensures b <= a ==> b <= Uniform(a, b, u) <= a
  {
    if a <= b {
      MulNonneg(b - a, u);
      MulNonneg(b - a, 1.0 - u);
      assert b - Uniform(a, b, u) == (b - a) * (1.0 - u);
    } else {
      MulNonneg(a - b, u);
      MulNonneg(a - b, 1.0 - u);
      assert Uniform(a, b, u) - a == -((a - b) * u);
      assert a - Uniform(a, b, u) == (a - b) * u;
      assert Uniform(a, b, u) - b == (a - b) * (1.0 - u);
    }
  }

  /** A product of two non-negative reals is non-negative. */
  lemma MulNonneg(x: real, y: real)
    requires 0.0 <= x && 0.0 <= y
    ensures 0.0 <= x * y
  {
  }

  // ---------------------------------------------------------------------
  // f"{n}" and int(s) for non-negative integers
  // ---------------------------------------------------------------------

  predicate IsDigit(c: char) {
    '0' <= c <= '9'
  }

  function DigitChar(d: nat): char
    requires d < 10
  {
    ('0' as int + d) as char
  }

  /** The decimal rendering of `n` that an f-string produces: digits only, no leading zero. */
  function DecimalString(n: nat): (s: string)
    ensures |s| >= 1
    ensures forall k :: 0 <= k < |s| ==> IsDigit(s[k])
    ensures s[0] == '0' ==> n == 0
  {
    if n < 10 then [DigitChar(n)] else DecimalString(n / 10) + [DigitChar(n % 10)]
  }

  function DigitValue(c: char): (d: nat)
    requires IsDigit(c)
    ensures d < 10 && DigitChar(d) == c
  {
    c as int - '0' as int
  }

  /** `int(s)` for a string of decimal digits. */
  function ParseDecimal(s: string): nat
    requires forall k :: 0 <= k < |s| ==> IsDigit(s[k])
  {
    if s == [] then 0
    else ParseDecimal(s[..|s| - 1]) * 10 + DigitValue(s[|s| - 1])
  }

  /** Round trip: `int(f"{n}") == n`. */
  lemma {:induction false} ParseDecimalString(n: nat)
    ensures ParseDecimal(DecimalString(n)) == n
  {
    if n >= 10 {
      var s := DecimalString(n);
      assert s[..|s| - 1] == DecimalString(n / 10);
      ParseDecimalString(n / 10);
    }
  }

  lemma DecimalStringInjective(m: nat, n: nat)
    requires DecimalString(m) == DecimalString(n)
    ensures m == n
  {
    ParseDecimalString(m);
    ParseDecimalString(n);
  }

  // ---------------------------------------------------------------------
  // os.path.join on POSIX
  // ---------------------------------------------------------------------

  /**
   * `posixpath.join(a, b)`: an absolute `b` replaces `a`; otherwise `b` is
   * appended, with a `/` in between unless `a` is empty or ends with one.
   */
  function PathJoin(a: string, b: string): (p: string)
    ensures |b| > 0 && b[0] == '/' ==> p == b
    ensures !(|b| > 0 && b[0] == '/') ==> a <= p && |b| <= |p| && p[|p| - |b|..] == b
  {
    if |b| > 0 && b[0] == '/' then b
    else if a == [] || a[|a| - 1] == '/' then a + b
    else a + "/" + b
  }

  /** Joining one directory with two different relative names gives two different paths. */
  lemma PathJoinInjective(a: string, b: string, c: string)
    requires !(|b| > 0 && b[0] == '/') && !(|c| > 0 && c[0] == '/')
    requires PathJoin(a, b) == PathJoin(a, c)
    ensures b == c
  {
    var sep := if a == [] || a[|a| - 1] == '/' then a else a + "/";
    assert PathJoin(a, b) == sep + b;
    assert PathJoin(a, c) == sep + c;
    assert b == (sep + b)[|sep|..];
    assert c == (sep + c)[|sep|..];
  }
}
