/** The Python text primitives that `read_txt` in second/main.py relies on:
    `str.strip()`, `str.split()` (both with no argument) and `int(token)` in
    base 10, together with decimal rendering of integers, which is the format
    those primitives read back. */
module PyText {
  import opened Wrappers

  /** Python's `str.isspace()` on one character: the characters that
      `strip()` removes and `split()` splits on. */
  predicate IsSpace(c: char) {
    || ('\t' <= c <= '\r')
    || ('\U{1C}' <= c <= ' ')
    || c == '\U{85}' || c == '\U{A0}' || c == '\U{1680}'
    || ('\U{2000}' <= c <= '\U{200A}')
    || c == '\U{2028}' || c == '\U{2029}' || c == '\U{202F}'
    || c == '\U{205F}' || c == '\U{3000}'
  }

  predicate AllSpace(s: string) {
    forall i :: 0 <= i < |s| ==> IsSpace(s[i])
  }

  /** A token as `split()` produces it: non-empty, without whitespace. */
  predicate IsWord(w: string) {
    |w| > 0 && forall i :: 0 <= i < |w| ==> !IsSpace(w[i])
  }

  /** The number of whitespace characters at the front of s. */
  function LeadingSpaces(s: string): (n: nat)
    ensures n <= |s| && AllSpace(s[..n])
    ensures n < |s| ==> !IsSpace(s[n])
  {
    if s == [] || !IsSpace(s[0]) then 0 else 1 + LeadingSpaces(s[1..])
  }

  /** The number of whitespace characters at the end of s. */
  function TrailingSpaces(s: string): (n: nat)
    ensures n <= |s| && AllSpace(s[|s| - n..])
    ensures n < |s| ==> !IsSpace(s[|s| - n - 1])
  {
    if s == [] || !IsSpace(s[|s| - 1]) then 0
    else
      var m := TrailingSpaces(s[..|s| - 1]);
      assert forall i :: |s| - 1 - m <= i < |s| - 1 ==> s[i] == s[..|s| - 1][i];
      1 + m
  }

  /** t is s with some whitespace removed at the front (i characters) and
      some at the end. */
  predicate DropsSpaces(s: string, t: string, i: int) {
    && 0 <= i && i + |t| <= |s|
    && s[i..i + |t|] == t
    && AllSpace(s[..i]) && AllSpace(s[i + |t|..])
  }

  /** `s.strip()`: s without its leading and trailing whitespace. */
  function Strip(s: string): (t: string)
    ensures t == [] || (!IsSpace(t[0]) && !IsSpace(t[|t| - 1]))
    ensures DropsSpaces(s, t, LeadingSpaces(s))
  {
    var i := LeadingSpaces(s);
    var rest := s[i..];
    var n := TrailingSpaces(rest);
    var t := rest[..|rest| - n];
    assert s[i..i + |t|] == t;
    assert s[i + |t|..] == rest[|rest| - n..];
    assert t != [] ==> t[0] == s[i] && t[|t| - 1] == rest[|rest| - n - 1];
    t
  }

  /** The number of non-whitespace characters at the front of s. */
  function WordLength(s: string): (n: nat)
    ensures n <= |s|
    ensures forall i :: 0 <= i < n ==> !IsSpace(s[i])
    ensures n < |s| ==> IsSpace(s[n])
  {
    if s == [] || IsSpace(s[0]) then 0 else 1 + WordLength(s[1..])
  }

  /** `s.split()`: the maximal runs of non-whitespace characters, in order. */
  function Split(s: string): (words: seq<string>)
    ensures words == [] <==> AllSpace(s)
    decreases |s|
  {
    if s == [] then []
    else if IsSpace(s[0]) then
      assert forall i :: 1 <= i < |s| ==> s[i] == s[1..][i - 1];
      Split(s[1..])
    else
      var n := WordLength(s);
      [s[..n]] + Split(s[n..])
  }

  /** Every token of `split()` is non-empty and holds no whitespace. */
  lemma {:induction false} SplitWords(s: string)
    ensures forall k :: 0 <= k < |Split(s)| ==> IsWord(Split(s)[k])
    decreases |s|
  {
    if s != [] {
      if IsSpace(s[0]) {
        SplitWords(s[1..]);
      } else {
        var n := WordLength(s);
        SplitWords(s[n..]);
        assert Split(s) == [s[..n]] + Split(s[n..]);
      }
    }
  }

  lemma {:induction false} WordLengthAppend(x: string, y: string)
    ensures WordLength(x + y) == if WordLength(x) < |x| then WordLength(x) else |x| + WordLength(y)
    decreases |x|
  {
    if x == [] {
      assert x + y == y;
    } else if !IsSpace(x[0]) {
      assert (x + y)[1..] == x[1..] + y;
      WordLengthAppend(x[1..], y);
    }
  }

  /** Whitespace in front of a string adds no token. */
  lemma {:induction false} SplitAfterSpaces(pre: string, u: string)
    requires AllSpace(pre)
    ensures Split(pre + u) == Split(u)
    decreases |pre|
  {
    if pre != [] {
      assert (pre + u)[1..] == pre[1..] + u;
      SplitAfterSpaces(pre[1..], u);
    } else {
      assert pre + u == u;
    }
  }

  /** Whitespace behind a string adds no token and does not lengthen the last one. */
  lemma {:induction false} SplitBeforeSpaces(u: string, post: string)
    requires AllSpace(post)
    ensures Split(u + post) == Split(u)
    decreases |u|
  {
    if u == [] {
      assert u + post == post;
    } else if IsSpace(u[0]) {
      assert (u + post)[1..] == u[1..] + post;
      SplitBeforeSpaces(u[1..], post);
    } else {
      var n := WordLength(u);
      WordLengthAppend(u, post);
      assert WordLength(u + post) == n;
      assert (u + post)[..n] == u[..n];
      assert (u + post)[n..] == u[n..] + post;
      SplitBeforeSpaces(u[n..], post);
    }
  }

  /** `line.strip().split()` is `line.split()`: the strip in read_txt changes
      no token. */
  lemma SplitStrip(s: string)
    ensures Split(Strip(s)) == Split(s)
  {
    var t := Strip(s);
    var i := LeadingSpaces(s);
    Slices(s, i, i + |t|);
    SplitAround(s[..i], t, s[i + |t|..]);
  }

  /** Whitespace on both sides adds no token. */
  lemma SplitAround(pre: string, t: string, post: string)
    requires AllSpace(pre) && AllSpace(post)
    ensures Split(pre + (t + post)) == Split(t)
  {
    SplitAfterSpaces(pre, t + post);
    SplitBeforeSpaces(t, post);
  }

  lemma Slices(s: string, i: nat, j: nat)
    requires i <= j <= |s|
    ensures s[..i] + (s[i..j] + s[j..]) == s
  {
  }

  /** Words joined by single spaces. */
  function Join(words: seq<string>): string
  {
    if |words| == 0 then ""
    else if |words| == 1 then words[0]
    else words[0] + " " + Join(words[1..])
  }

  /** A word followed by whitespace-free text up to the end is split off whole. */
  lemma SplitLeadingWord(w: string, rest: string)
    requires IsWord(w)
    requires rest == [] || IsSpace(rest[0])
    ensures Split(w + rest) == [w] + Split(rest)
  {
    var s := w + rest;
    WordLengthAppend(w, rest);
    assert WordLength(s) == |w|;
    assert s[..|w|] == w;
    assert s[|w|..] == rest;
  }

  /** `split()` recovers the words that were joined by single spaces. */
  lemma {:induction false} SplitJoin(words: seq<string>)
    requires forall k :: 0 <= k < |words| ==> IsWord(words[k])
    ensures Split(Join(words)) == words
  {
    if |words| == 1 {
      SplitLeadingWord(words[0], []);
      assert words[0] + [] == words[0];
    } else if |words| > 1 {
      SplitWordSpace(words[0], Join(words[1..]));
      SplitJoin(words[1..]);
      assert [words[0]] + words[1..] == words;
    }
  }

  /** Words with a run of whitespace between each two: `seps[k]` separates
      `words[k]` from `words[k + 1]`. */
  function JoinBy(words: seq<string>, seps: seq<string>): string
    requires |words| == |seps| + 1
  {
    if |words| == 1 then words[0]
    else words[0] + seps[0] + JoinBy(words[1..], seps[1..])
  }

  /** `split()` recovers the words whatever whitespace runs separate them. */
  lemma {:induction false} SplitJoinBy(words: seq<string>, seps: seq<string>)
    requires |words| == |seps| + 1
    requires forall k :: 0 <= k < |words| ==> IsWord(words[k])
    requires forall k :: 0 <= k < |seps| ==> |seps[k]| > 0 && AllSpace(seps[k])
    ensures Split(JoinBy(words, seps)) == words
  {
    if |words| == 1 {
      SplitLeadingWord(words[0], []);
      assert words[0] + [] == words[0];
    } else {
      var rest := JoinBy(words[1..], seps[1..]);
      SplitJoinBy(words[1..], seps[1..]);
      assert words[0] + seps[0] + rest == words[0] + (seps[0] + rest);
      SplitLeadingWord(words[0], seps[0] + rest);
      SplitAfterSpaces(seps[0], rest);
      assert [words[0]] + words[1..] == words;
    }
  }

  /** A line laid out as whitespace, words separated by whitespace runs, and
      whitespace splits into exactly those words. */
  lemma SplitLayout(pre: string, words: seq<string>, seps: seq<string>, post: string)
    requires AllSpace(pre) && AllSpace(post)
    requires |words| == |seps| + 1
    requires forall k :: 0 <= k < |words| ==> IsWord(words[k])
    requires forall k :: 0 <= k < |seps| ==> |seps[k]| > 0 && AllSpace(seps[k])
    ensures Split(pre + (JoinBy(words, seps) + post)) == words
  {
    SplitAround(pre, JoinBy(words, seps), post);
    SplitJoinBy(words, seps);
  }

  /** A word and a space in front of a string add that word as first token. */
  lemma SplitWordSpace(w: string, rest: string)
    requires IsWord(w)
    ensures Split(w + " " + rest) == [w] + Split(rest)
  {
    assert w + " " + rest == w + (" " + rest);
    SplitLeadingWord(w, " " + rest);
    SplitAfterSpaces(" ", rest);
  }

  // ----- int(token) in base 10 -----

  predicate IsDigit(c: char) {
    '0' <= c <= '9'
  }

  function DigitValue(c: char): (d: nat)
    requires IsDigit(c)
    ensures d < 10
  {
    c as int - '0' as int
  }

  function DigitChar(d: nat): (c: char)
    requires d < 10
    ensures IsDigit(c) && DigitValue(c) == d
  {
    ('0' as int + d) as char
  }

  predicate AllDigits(s: string) {
    forall i :: 0 <= i < |s| ==> IsDigit(s[i])
  }

  /** The digits of an integer literal as `int()` accepts them: ASCII digits,
      with single underscores allowed between two digits. */
  predicate IsDigitGroup(b: string) {
    && |b| > 0
    && IsDigit(b[0]) && IsDigit(b[|b| - 1])
    && forall i :: 0 < i < |b| - 1 && !IsDigit(b[i]) ==>
         b[i] == '_' && IsDigit(b[i - 1]) && IsDigit(b[i + 1])
  }

  function DropUnderscores(b: string): (ds: string)
    requires forall i :: 0 <= i < |b| ==> IsDigit(b[i]) || b[i] == '_'
    ensures AllDigits(ds)
  {
    if b == [] then []
    else if b[|b| - 1] == '_' then DropUnderscores(b[..|b| - 1])
    else DropUnderscores(b[..|b| - 1]) + [b[|b| - 1]]
  }

  /** The value of a string of decimal digits, most significant first. */
  function DecimalValue(ds: string): (v: nat)
    requires AllDigits(ds)
  {
    if ds == [] then 0 else 10 * DecimalValue(ds[..|ds| - 1]) + DigitValue(ds[|ds| - 1])
  }

  /** `int(token)`; None stands for the ValueError it raises. */
  function ParseInt(token: string): (r: Option<int>)
    ensures r.Some? ==> IsWord(token)
    ensures r.Some? ==> forall i :: 0 <= i < |token| ==>
      IsDigit(token[i]) || (token[i] == '_' && 0 < i < |token| - 1) || (i == 0 && (token[i] == '+' || token[i] == '-'))
    ensures r.Some? ==> IsDigit(token[|token| - 1])
  {
    if |token| > 0 && (token[0] == '+' || token[0] == '-') then
      var body := token[1..];
      if IsDigitGroup(body) then
        var v: int := DecimalValue(DropUnderscores(body));
        Some(if token[0] == '-' then -v else v)
      else None
    else if IsDigitGroup(token) then Some(DecimalValue(DropUnderscores(token)))
    else None
  }

  /** `str(n)` for a natural number: its decimal digits without leading zeros. */
  function NatToString(n: nat): (s: string)
    ensures |s| > 0 && AllDigits(s)
    ensures |s| > 1 ==> s[0] != '0'
  {
    if n < 10 then [DigitChar(n)] else NatToString(n / 10) + [DigitChar(n % 10)]
  }

  /** `str(n)` for an integer. */
  function IntToString(n: int): (s: string)
    ensures IsWord(s)
  {
    if n < 0 then "-" + NatToString(-n) else NatToString(n)
  }

  lemma {:induction false} DecimalValueOfNatToString(n: nat)
    ensures DecimalValue(NatToString(n)) == n
  {
    if n >= 10 {
      var s := NatToString(n);
      assert s[..|s| - 1] == NatToString(n / 10);
      DecimalValueOfNatToString(n / 10);
    }
  }

  lemma {:induction false} DropUnderscoresOfDigits(ds: string)
    requires AllDigits(ds)
    ensures DropUnderscores(ds) == ds
  {
    if ds != [] {
      DropUnderscoresOfDigits(ds[..|ds| - 1]);
    }
  }

  lemma DigitsAreGroup(ds: string)
    requires |ds| > 0 && AllDigits(ds)
    ensures IsDigitGroup(ds)
  {
  }

  /** `int(str(n)) == n`. */
  lemma ParseIntToString(n: int)
    ensures ParseInt(IntToString(n)) == Some(n)
  {
    var m: nat := if n < 0 then -n else n;
    var ds := NatToString(m);
    DecimalValueOfNatToString(m);
    DropUnderscoresOfDigits(ds);
    DigitsAreGroup(ds);
    var s := IntToString(n);
    if n < 0 {
      assert s == "-" + ds;
      assert s[0] == '-' && s[1..] == ds;
    } else {
      assert s == ds;
      assert IsDigit(s[0]);
    }
  }

  /** A leading zero does not change the value of a digit string. */
  lemma {:induction false} DecimalValueLeadingZero(ds: string)
    requires AllDigits(ds)
    ensures DecimalValue("0" + ds) == DecimalValue(ds)
  {
    if ds != [] {
      assert ("0" + ds)[..|"0" + ds| - 1] == "0" + ds[..|ds| - 1];
      DecimalValueLeadingZero(ds[..|ds| - 1]);
    }
  }

  /** Dropping underscores works piece by piece. */
  lemma {:induction false} DropUnderscoresAppend(x: string, y: string)
    requires forall i :: 0 <= i < |x| ==> IsDigit(x[i]) || x[i] == '_'
    requires forall i :: 0 <= i < |y| ==> IsDigit(y[i]) || y[i] == '_'
    ensures DropUnderscores(x + y) == DropUnderscores(x) + DropUnderscores(y)
    decreases |y|
  {
    if y == [] {
      assert x + y == x;
    } else {
      var y' := y[..|y| - 1];
      assert (x + y)[..|x + y| - 1] == x + y';
      DropUnderscoresAppend(x, y');
    }
  }

  /** A sign in front of an unsigned token: `+` keeps its value, `-` negates it. */
  lemma SignedToken(b: string)
    requires b == [] || (b[0] != '+' && b[0] != '-')
    ensures ParseInt("+" + b) == ParseInt(b)
    ensures ParseInt("-" + b) == if ParseInt(b).Some? then Some(-ParseInt(b).value) else None
  {
    assert ("+" + b)[1..] == b && ("-" + b)[1..] == b;
  }

  /** A zero in front of a digit group leaves a digit group. */
  lemma ZeroGroup(ds: string)
    requires IsDigitGroup(ds)
    ensures IsDigitGroup("0" + ds)
  {
    var t := "0" + ds;
    forall i | 0 < i < |t| - 1 && !IsDigit(t[i])
      ensures t[i] == '_' && IsDigit(t[i - 1]) && IsDigit(t[i + 1])
    {
      assert t[i] == ds[i - 1] && t[i + 1] == ds[i] && t[i - 1] == ds[i - 2];
    }
  }

  /** `int()` ignores leading zeros: `int("07") == int("7")`. */
  lemma LeadingZero(ds: string)
    requires IsDigitGroup(ds)
    ensures ParseInt("0" + ds) == ParseInt(ds)
  {
    var t := "0" + ds;
    ZeroGroup(ds);
    DropLeadingZero(ds);
    DecimalValueLeadingZero(DropUnderscores(ds));
    assert t[0] == '0' && IsDigit(ds[0]);
  }

  lemma DropLeadingZero(ds: string)
    requires IsDigitGroup(ds)
    ensures DropUnderscores("0" + ds) == "0" + DropUnderscores(ds)
  {
    DropUnderscoresAppend("0", ds);
    DropUnderscoresOfDigits("0");
  }

  /** Two digit groups joined by one underscore form a digit group. */
  lemma UnderscoreGroup(a: string, b: string)
    requires IsDigitGroup(a) && IsDigitGroup(b)
    ensures IsDigitGroup(a + "_" + b)
  {
    var t := a + "_" + b;
    forall i | 0 < i < |t| - 1 && !IsDigit(t[i])
      ensures t[i] == '_' && IsDigit(t[i - 1]) && IsDigit(t[i + 1])
    {
      if i < |a| {
        assert t[i] == a[i] && t[i - 1] == a[i - 1];
        assert t[i + 1] == if i + 1 < |a| then a[i + 1] else '_';
      } else if i > |a| {
        assert t[i] == b[i - |a| - 1] && t[i + 1] == b[i - |a|];
        assert t[i - 1] == if i - 1 > |a| then b[i - |a| - 2] else '_';
      }
    }
  }

  /** Two digit groups written one after the other form a digit group. */
  lemma ConcatGroup(a: string, b: string)
    requires IsDigitGroup(a) && IsDigitGroup(b)
    ensures IsDigitGroup(a + b)
  {
    var u := a + b;
    forall i | 0 < i < |u| - 1 && !IsDigit(u[i])
      ensures u[i] == '_' && IsDigit(u[i - 1]) && IsDigit(u[i + 1])
    {
      if i < |a| {
        assert u[i] == a[i] && u[i - 1] == a[i - 1] && u[i + 1] == a[i + 1];
      } else {
        assert u[i] == b[i - |a|] && u[i + 1] == b[i - |a| + 1] && u[i - 1] == b[i - |a| - 1];
      }
    }
  }

  /** A single underscore between two digit groups is ignored:
      `int("1_000") == int("1000")`. */
  lemma Underscore(a: string, b: string)
    requires IsDigitGroup(a) && IsDigitGroup(b)
    ensures ParseInt(a + "_" + b) == ParseInt(a + b)
  {
    UnderscoreGroup(a, b);
    ConcatGroup(a, b);
    assert a + "_" + b == (a + "_") + b;
    DropUnderscoresAppend(a + "_", b);
    DropUnderscoresAppend(a, "_");
    DropUnderscoresAppend(a, b);
    assert DropUnderscores("_") == [] by {
      assert "_"[..0] == [];
    }
  }

  /** The tokens `int()` rejects although they look numeric. */
  lemma Rejected()
    ensures ParseInt("1.5").None? && ParseInt("1e3").None? && ParseInt("1__0").None?
    ensures ParseInt("+").None? && ParseInt("").None? && ParseInt("_1").None? && ParseInt("1_").None?
    ensures ParseInt("+-1").None?
  {
    assert !IsDigitGroup("1__0") by {
      assert !IsDigit("1__0"[1]) && !IsDigit("1__0"[2]);
    }
    assert !IsDigitGroup("-1");
  }
}
