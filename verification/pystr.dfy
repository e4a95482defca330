/** The handful of Python `str` operations the backend relies on, restricted to
    ASCII: `strip()`, `lstrip(chars)`, `split(sep)`, `split()`, `lower()`,
    `startswith`, and the `str(int)` / `int(str)` conversions used for the
    token subject. */
module PyStr {
  import opened Wrappers

  /** The ASCII characters for which Python's `str.isspace()` holds. */
  const Whitespace: set<char> :=
    {'\t', '\n', '\U{B}', '\U{C}', '\r', '\U{1C}', '\U{1D}', '\U{1E}', '\U{1F}', ' '}

  predicate IsSpace(c: char) {
    c in Whitespace
  }

  predicate AllIn(s: string, cs: set<char>) {
    forall i :: 0 <= i < |s| ==> s[i] in cs
  }

  predicate NoSpace(s: string) {
    forall i :: 0 <= i < |s| ==> !IsSpace(s[i])
  }

  /** `s.startswith(prefix)`. */
  predicate StartsWith(s: string, prefix: string) {
    |prefix| <= |s| && forall i :: 0 <= i < |prefix| ==> s[i] == prefix[i]
  }

  // ---------------------------------------------------------------------------
  // strip / lstrip

  /** Number of leading characters of `s` that are in `cs`. */
  function LeadCount(s: string, cs: set<char>): (n: nat)
    ensures n <= |s|
    ensures forall i :: 0 <= i < n ==> s[i] in cs
    ensures n < |s| ==> s[n] !in cs
    decreases |s|
  {
    if |s| > 0 && s[0] in cs then 1 + LeadCount(s[1..], cs) else 0
  }

  /** `LeadCount` is the length of the longest prefix drawn from `cs`. */
  lemma LeadCountIs(s: string, cs: set<char>, k: int)
    requires 0 <= k <= |s|
    requires forall i :: 0 <= i < k ==> s[i] in cs
    requires k < |s| ==> s[k] !in cs
    ensures LeadCount(s, cs) == k
  {
  }

  /** Number of trailing characters of `s` that are in `cs`. */
  function TrailCount(s: string, cs: set<char>): (n: nat)
    ensures n <= |s|
    ensures forall i :: |s| - n <= i < |s| ==> s[i] in cs
    ensures n < |s| ==> s[|s| - n - 1] !in cs
    decreases |s|
  {
    if |s| > 0 && s[|s| - 1] in cs then 1 + TrailCount(s[..|s| - 1], cs) else 0
  }

  /** `s.lstrip(chars)`: drops the longest prefix made of characters in `cs`. */
  function LStripSet(s: string, cs: set<char>): (r: string)
    ensures |r| == |s| - LeadCount(s, cs)
    ensures r == s[|s| - |r|..] && AllIn(s[..|s| - |r|], cs)
    ensures r == [] || r[0] !in cs
  {
    s[LeadCount(s, cs)..]
  }

  /** A string is drawn from `cs` when its first `a` characters and the
      rest both are. */
  lemma AllInSplit(s: string, a: nat, cs: set<char>)
    requires a <= |s|
    requires forall i :: 0 <= i < a ==> s[i] in cs
    requires forall i :: 0 <= i < |s| - a ==> s[a..][i] in cs
    ensures AllIn(s, cs)
  {
    forall i | a <= i < |s| ensures s[i] in cs {
      assert s[a..][i - a] == s[i];
    }
  }

  /** `s.strip()` with no argument: trims whitespace at both ends. */
  function Strip(s: string): (r: string)
    ensures |r| <= |s|
    ensures r == [] <==> AllIn(s, Whitespace)
    ensures r != [] ==> !IsSpace(r[0]) && !IsSpace(r[|r| - 1])
  {
    var a := LeadCount(s, Whitespace);
    var t := s[a..];
    var n := TrailCount(t, Whitespace);
    var r := t[..|t| - n];
    assert forall i :: a <= i < |s| ==> t[i - a] == s[i];
    assert r == [] ==> AllIn(s, Whitespace) by {
      if r == [] {
        AllInSplit(s, a, Whitespace);
      }
    }
    assert AllIn(s, Whitespace) ==> a == |s|;
    assert r != [] ==> r[0] == s[a] && r[|r| - 1] == t[|t| - n - 1];
    r
  }


  /** `Strip(s)` is the slice of `s` between its leading and its trailing
      whitespace, and nothing but whitespace lies outside that slice. */
  lemma StripIsTrim(s: string)
    ensures LeadCount(s, Whitespace) + |Strip(s)| <= |s|
    ensures Strip(s) == s[LeadCount(s, Whitespace)..LeadCount(s, Whitespace) + |Strip(s)|]
    ensures forall i :: 0 <= i < LeadCount(s, Whitespace) ==> IsSpace(s[i])
    ensures forall i :: LeadCount(s, Whitespace) + |Strip(s)| <= i < |s| ==> IsSpace(s[i])
  {
    var a := LeadCount(s, Whitespace);
    var t := s[a..];
    var n := TrailCount(t, Whitespace);
    var r := Strip(s);
    assert r == t[..|t| - n];
    assert |r| == |s| - n - a;
    assert r == s[a..a + |r|];
    forall i | a + |r| <= i < |s| ensures IsSpace(s[i]) {
      assert t[i - a] == s[i];
    }
  }

  /** `Strip(s)` is the slice of `s` after its leading whitespace, and only
      whitespace follows that slice. */
  lemma StripTail(s: string)
    ensures LeadCount(s, Whitespace) + |Strip(s)| <= |s|
    ensures Strip(s) == s[LeadCount(s, Whitespace)..LeadCount(s, Whitespace) + |Strip(s)|]
    ensures AllIn(s[LeadCount(s, Whitespace) + |Strip(s)|..], Whitespace)
  {
    StripIsTrim(s);
    AllInFrom(s, LeadCount(s, Whitespace) + |Strip(s)|, Whitespace);
  }

  /** Stripping the suffix `s[k..]` leaves the slice of `s` that starts after
      the whitespace at `k`, and only whitespace follows that slice. */
  lemma StripOfSuffix(s: string, k: nat)
    requires k <= |s|
    ensures var a := k + LeadCount(s[k..], Whitespace);
      var r := Strip(s[k..]);
      && a + |r| <= |s|
      && r == s[a..a + |r|]
      && AllIn(s[a + |r|..], Whitespace)
  {
    var u := s[k..];
    StripTail(u);
    SliceShift(s, u, k, LeadCount(u, Whitespace), Strip(u), Whitespace);
  }

  lemma AllInFrom(s: string, j: nat, cs: set<char>)
    requires j <= |s|
    requires forall i :: j <= i < |s| ==> s[i] in cs
    ensures AllIn(s[j..], cs)
  {
    forall i | 0 <= i < |s| - j ensures s[j..][i] in cs {
      assert s[j..][i] == s[i + j];
    }
  }

  /** A slice of a suffix of `t` is a slice of `t` further along, and what
      follows it is what follows it in `t`. */
  lemma SliceShift(t: string, u: string, k: nat, b: nat, r: string, cs: set<char>)
    requires k <= |t| && u == t[k..]
    requires b + |r| <= |u| && r == u[b..b + |r|] && AllIn(u[b + |r|..], cs)
    ensures k + b + |r| <= |t|
    ensures r == t[k + b..k + b + |r|]
    ensures AllIn(t[k + b + |r|..], cs)
  {
    assert u[b + |r|..] == t[k + b + |r|..];
  }

  /** Where `s.lstrip(cs).strip()` starts in `s`: after the leading run drawn
      from `cs` and the whitespace that follows that run. */
  function LStripStripStart(s: string, cs: set<char>): (a: nat)
    ensures a <= |s|
  {
    var k := LeadCount(s, cs);
    k + LeadCount(s[k..], Whitespace)
  }

  /** `s.lstrip(cs).strip()` is the slice of `s` that starts at
      `LStripStripStart(s, cs)`, and only whitespace follows it. */
  lemma LStripStripSlice(s: string, cs: set<char>)
    ensures LStripStripStart(s, cs) + |Strip(LStripSet(s, cs))| <= |s|
    ensures Strip(LStripSet(s, cs)) == s[LStripStripStart(s, cs)..LStripStripStart(s, cs) + |Strip(LStripSet(s, cs))|]
    ensures AllIn(s[LStripStripStart(s, cs) + |Strip(LStripSet(s, cs))|..], Whitespace)
  {
    LStripStripAt(s, cs);
    LStripStripTail(s, cs);
  }

  lemma LStripStripAt(s: string, cs: set<char>)
    ensures LStripStripStart(s, cs) + |Strip(LStripSet(s, cs))| <= |s|
    ensures Strip(LStripSet(s, cs)) == s[LStripStripStart(s, cs)..LStripStripStart(s, cs) + |Strip(LStripSet(s, cs))|]
  {
    StripOfSuffix(s, LeadCount(s, cs));
    LStripStripUnfold(s, cs);
  }

  lemma LStripStripTail(s: string, cs: set<char>)
    ensures LStripStripStart(s, cs) + |Strip(LStripSet(s, cs))| <= |s|
    ensures AllIn(s[LStripStripStart(s, cs) + |Strip(LStripSet(s, cs))|..], Whitespace)
  {
    StripOfSuffix(s, LeadCount(s, cs));
    LStripStripUnfold(s, cs);
  }

  lemma LStripStripUnfold(s: string, cs: set<char>)
    ensures LStripSet(s, cs) == s[LeadCount(s, cs)..]
    ensures LStripStripStart(s, cs) == LeadCount(s, cs) + LeadCount(s[LeadCount(s, cs)..], Whitespace)
  {
  }

  /** A run drawn from `cs` in front of a string that starts outside `cs` is
      exactly the leading run. */
  lemma LeadCountPadded(lead: string, rest: string, cs: set<char>)
    requires AllIn(lead, cs)
    requires rest != [] && rest[0] !in cs
    ensures LeadCount(lead + rest, cs) == |lead|
  {
    var s := lead + rest;
    assert forall i :: 0 <= i < |lead| ==> s[i] == lead[i];
    assert s[|lead|] == rest[0];
    LeadCountIs(s, cs, |lead|);
  }

  /** Symmetrically, a run drawn from `cs` after a string that ends outside
      `cs` is exactly the trailing run. */
  lemma {:induction false} TrailCountPadded(rest: string, trail: string, cs: set<char>)
    requires AllIn(trail, cs)
    requires rest != [] && rest[|rest| - 1] !in cs
    ensures TrailCount(rest + trail, cs) == |trail|
    decreases |trail|
  {
    var s := rest + trail;
    if |trail| == 0 {
      assert s == rest;
    } else {
      var t := trail[..|trail| - 1];
      assert s[|s| - 1] == trail[|trail| - 1];
      assert s[..|s| - 1] == rest + t;
      assert AllIn(t, cs) by {
        assert forall i :: 0 <= i < |t| ==> t[i] == trail[i];
      }
      TrailCountPadded(rest, t, cs);
    }
  }

  /** A string padded with whitespace on both sides strips to itself. */
  lemma StripPadded(lead: string, core: string, trail: string)
    requires AllIn(lead, Whitespace) && AllIn(trail, Whitespace)
    requires core != [] && !IsSpace(core[0]) && !IsSpace(core[|core| - 1])
    ensures Strip(lead + core + trail) == core
  {
    var s := lead + core + trail;
    var u := core + trail;
    assert s == lead + u;
    assert u[0] == core[0];
    LeadCountPadded(lead, u, Whitespace);
    assert s[|lead|..] == u;
    TrailCountPadded(core, trail, Whitespace);
    assert u[..|u| - |trail|] == core;
  }

  /** A string with non-whitespace characters at both ends is its own strip. */
  lemma StripNoop(s: string)
    requires s != [] && !IsSpace(s[0]) && !IsSpace(s[|s| - 1])
    ensures Strip(s) == s
  {
    assert LeadCount(s, Whitespace) == 0;
    assert TrailCount(s, Whitespace) == 0;
  }

  // ---------------------------------------------------------------------------
  // split(sep)

  function Count(s: string, c: char): nat
  {
    if |s| == 0 then 0 else (if s[0] == c then 1 else 0) + Count(s[1..], c)
  }

  /** Joins pieces with `sep` between consecutive ones (`sep.join(ps)`). */
  function Join(ps: seq<string>, sep: char): string
  {
    if |ps| == 0 then ""
    else if |ps| == 1 then ps[0]
    else ps[0] + [sep] + Join(ps[1..], sep)
  }

  /** `s.split(sep)` for a one-character separator: always at least one piece,
      one more piece than there are separators, no piece holds the separator,
      and joining the pieces back gives `s`. */
  function Split(s: string, sep: char): (r: seq<string>)
    ensures |r| == Count(s, sep) + 1
    ensures forall i :: 0 <= i < |r| ==> sep !in r[i]
    ensures Join(r, sep) == s
    decreases |s|
  {
    if |s| == 0 then [""]
    else
      var rest := Split(s[1..], sep);
      if s[0] == sep then
        assert s == [sep] + s[1..];
        [""] + rest
      else
        var r := [[s[0]] + rest[0]] + rest[1..];
        assert r[1..] == rest[1..];
        if |rest| == 1 then
          assert s == [s[0]] + s[1..];
          r
        else
          assert Join(rest, sep) == rest[0] + [sep] + Join(rest[1..], sep);
          assert s == [s[0]] + s[1..];
          r
  }

  lemma {:induction false} SplitPiece(a: string, t: string, sep: char)
    requires sep !in a
    ensures Split(a + [sep] + t, sep) == [a] + Split(t, sep)
    decreases |a|
  {
    if |a| == 0 {
      assert a + [sep] + t == [sep] + t;
      assert ([sep] + t)[1..] == t;
    } else {
      var s := a + [sep] + t;
      assert s[0] == a[0];
      assert s[1..] == a[1..] + [sep] + t;
      SplitPiece(a[1..], t, sep);
      assert [a[0]] + a[1..] == a;
    }
  }

  lemma {:induction false} SplitWhole(a: string, sep: char)
    requires sep !in a
    ensures Split(a, sep) == [a]
    decreases |a|
  {
    if |a| > 0 {
      SplitWhole(a[1..], sep);
      assert [a[0]] + a[1..] == a;
    }
  }

  /** Splitting two parts joined by a separator splits each part on its own. */
  lemma {:induction false} SplitConcat(t: string, a: string, sep: char)
    ensures Split(t + [sep] + a, sep) == Split(t, sep) + Split(a, sep)
    decreases |t|
  {
    var s := t + [sep] + a;
    var sa := Split(a, sep);
    if |t| == 0 {
      assert s == [sep] + a;
      assert s[1..] == a;
    } else {
      assert s[0] == t[0];
      assert s[1..] == t[1..] + [sep] + a;
      SplitConcat(t[1..], a, sep);
      var rest := Split(t[1..], sep);
      assert Split(s[1..], sep) == rest + sa;
      if t[0] == sep {
        assert Split(s, sep) == [""] + (rest + sa);
        ConsAppend("", rest, sa);
      } else {
        ConsHead(rest, sa);
        assert Split(s, sep) == [[t[0]] + rest[0]] + (rest[1..] + sa);
        ConsAppend([t[0]] + rest[0], rest[1..], sa);
      }
    }
  }

  lemma ConsHead<T>(x: seq<T>, y: seq<T>)
    requires |x| >= 1
    ensures (x + y)[0] == x[0] && (x + y)[1..] == x[1..] + y
  {
  }

  lemma ConsAppend<T>(x: T, y: seq<T>, z: seq<T>)
    ensures [x] + (y + z) == ([x] + y) + z
  {
  }

  /** `Split` is the only way to cut a string into separator-free pieces that
      join back to it: splitting a join returns the pieces. */
  lemma {:induction false} SplitJoin(ps: seq<string>, sep: char)
    requires |ps| >= 1
    requires forall i :: 0 <= i < |ps| ==> sep !in ps[i]
    ensures Split(Join(ps, sep), sep) == ps
    decreases |ps|
  {
    if |ps| == 1 {
      SplitWhole(ps[0], sep);
    } else {
      SplitJoin(ps[1..], sep);
      SplitPiece(ps[0], Join(ps[1..], sep), sep);
      assert [ps[0]] + ps[1..] == ps;
    }
  }

  // ---------------------------------------------------------------------------
  // split() with no argument

  /** Length of the run of non-whitespace characters at the front of `s`. */
  function WordLen(s: string): (n: nat)
    ensures n <= |s|
    ensures NoSpace(s[..n])
    ensures n == |s| || IsSpace(s[n])
    decreases |s|
  {
    if |s| == 0 || IsSpace(s[0]) then 0
    else
      var m := WordLen(s[1..]);
      assert s[..1 + m] == [s[0]] + s[1..][..m];
      1 + m
  }

  /** The non-whitespace characters of `s`, in order. */
  function Visible(s: string): string
  {
    if |s| == 0 then "" else (if IsSpace(s[0]) then "" else [s[0]]) + Visible(s[1..])
  }

  function Concat(ws: seq<string>): string
  {
    if |ws| == 0 then "" else ws[0] + Concat(ws[1..])
  }

  lemma {:induction false} VisibleAppend(a: string, b: string)
    ensures Visible(a + b) == Visible(a) + Visible(b)
    decreases |a|
  {
    if |a| > 0 {
      assert (a + b)[1..] == a[1..] + b;
      VisibleAppend(a[1..], b);
    } else {
      assert a + b == b;
    }
  }

  lemma {:induction false} VisibleOfNoSpace(a: string)
    requires NoSpace(a)
    ensures Visible(a) == a
    decreases |a|
  {
    if |a| > 0 {
      VisibleOfNoSpace(a[1..]);
      assert [a[0]] + a[1..] == a;
    }
  }

  /** `s.split()`: the maximal runs of non-whitespace characters. Every word is
      non-empty and whitespace-free, and together they hold exactly the
      non-whitespace characters of `s`, in order. */
  function Words(s: string): (r: seq<string>)
    ensures forall i :: 0 <= i < |r| ==> r[i] != [] && NoSpace(r[i])
    ensures Concat(r) == Visible(s)
    decreases |s|
  {
    if |s| == 0 then []
    else if IsSpace(s[0]) then Words(s[1..])
    else
      var n := WordLen(s);
      assert s == s[..n] + s[n..];
      VisibleAppend(s[..n], s[n..]);
      VisibleOfNoSpace(s[..n]);
      [s[..n]] + Words(s[n..])
  }

  /** Whitespace in front of a string does not change its words. */
  lemma {:induction false} WordsSkipSpace(w: string, t: string)
    requires AllIn(w, Whitespace)
    ensures Words(w + t) == Words(t)
    decreases |w|
  {
    if |w| > 0 {
      assert (w + t)[0] == w[0];
      assert (w + t)[1..] == w[1..] + t;
      WordsSkipSpace(w[1..], t);
    } else {
      assert w + t == t;
    }
  }

  /** A whitespace-free word followed by whitespace or nothing is one word. */
  lemma WordsTakeWord(a: string, t: string)
    requires a != [] && NoSpace(a)
    requires t == [] || IsSpace(t[0])
    ensures Words(a + t) == [a] + Words(t)
  {
    var s := a + t;
    var n := WordLen(s);
    assert forall i :: 0 <= i < |a| ==> s[i] == a[i];
    assert |t| > 0 ==> s[|a|] == t[0];
    assert forall i :: 0 <= i < n ==> s[..n][i] == s[i];
    assert n == |a|;
    assert s[..n] == a && s[n..] == t;
  }

  /** The shape of an `Authorization` value that `split()` cuts into exactly two
      words: optional whitespace, a word, at least one whitespace character, a
      word, optional whitespace. */
  lemma TwoWords(lead: string, a: string, sep: string, b: string, trail: string)
    requires AllIn(lead, Whitespace) && AllIn(sep, Whitespace) && AllIn(trail, Whitespace)
    requires sep != []
    requires a != [] && NoSpace(a) && b != [] && NoSpace(b)
    ensures Words(lead + a + sep + b + trail) == [a, b]
  {
    var s := lead + a + sep + b + trail;
    assert s == lead + (a + (sep + (b + trail)));
    WordsSkipSpace(lead, a + (sep + (b + trail)));
    WordsTakeWord(a, sep + (b + trail));
    WordsSkipSpace(sep, b + trail);
    WordsTakeWord(b, trail);
    WordsSkipSpace(trail, []);
    assert trail + [] == trail;
  }

  // ---------------------------------------------------------------------------
  // lower()

  function LowerChar(c: char): char
  {
    if 'A' <= c <= 'Z' then (c as int + 32) as char else c
  }

  /** `s.lower()` on ASCII letters. */
  function Lower(s: string): (r: string)
    ensures |r| == |s|
    ensures forall i :: 0 <= i < |s| ==> r[i] == LowerChar(s[i])
  {
    seq(|s|, i requires 0 <= i < |s| => LowerChar(s[i]))
  }

  /** `s.lower() == w` for a lower-case ASCII word `w` holds exactly when `s`
      spells `w` with each letter in either case. */
  lemma LowerMatches(s: string, w: string, upper: string)
    requires |upper| == |w|
    requires forall i :: 0 <= i < |w| ==> 'a' <= w[i] <= 'z' && upper[i] as int == w[i] as int - 32
    ensures Lower(s) == w <==> |s| == |w| && forall i :: 0 <= i < |s| ==> s[i] == w[i] || s[i] == upper[i]
  {
    if |s| == |w| && forall i :: 0 <= i < |s| ==> s[i] == w[i] || s[i] == upper[i] {
      assert forall i :: 0 <= i < |s| ==> Lower(s)[i] == w[i];
    }
    if Lower(s) == w {
      forall i | 0 <= i < |s| ensures s[i] == w[i] || s[i] == upper[i] {
        assert LowerChar(s[i]) == w[i];
      }
    }
  }

  // ---------------------------------------------------------------------------
  // str(int) and int(str)

  predicate IsDigit(c: char) {
    '0' <= c <= '9'
  }

  predicate AllDigits(s: string) {
    forall i :: 0 <= i < |s| ==> IsDigit(s[i])
  }

  function DigitChar(d: nat): (c: char)
    requires d < 10
    ensures IsDigit(c) && c as int - '0' as int == d
  {
    ('0' as int + d) as char
  }

  /** Value of a string of ASCII digits read in base ten. */
  function DigitsValue(s: string): nat
    requires AllDigits(s)
  {
    if |s| == 0 then 0
    else 10 * DigitsValue(s[..|s| - 1]) + (s[|s| - 1] as int - '0' as int)
  }

  /** `str(n)` for `n >= 0`: decimal digits, no sign, no leading zero. */
  function NatToDigits(n: nat): (r: string)
    ensures r != [] && AllDigits(r)
    ensures |r| > 1 ==> r[0] != '0'
    decreases n
  {
    if n < 10 then [DigitChar(n)] else NatToDigits(n / 10) + [DigitChar(n % 10)]
  }

  lemma {:induction false} DigitsRoundTrip(n: nat)
    ensures DigitsValue(NatToDigits(n)) == n
    decreases n
  {
    if n >= 10 {
      DigitsRoundTrip(n / 10);
      var r := NatToDigits(n);
      assert r[..|r| - 1] == NatToDigits(n / 10);
    }
  }

  /** `str(n)`: a minus sign exactly for a negative `n`, then the decimal
      digits of its magnitude. */
  function IntToStr(n: int): (r: string)
    ensures r != [] && (r[0] == '-' <==> n < 0)
    ensures n < 0 ==> AllDigits(r[1..])
    ensures n >= 0 ==> AllDigits(r)
  {
    if n < 0 then "-" + NatToDigits(-n) else NatToDigits(n)
  }

  /** The characters `int()` skips around the digits: the six of C's
      `isspace`. `str.isspace()` also holds for `\x1c`-`\x1f`, which `int()`
      rejects. */
  const IntSpace: set<char> := {'\t', '\n', '\U{B}', '\U{C}', '\r', ' '}

  /** `int(s)` for a string argument: characters of `IntSpace` around the
      number are ignored, and an optional sign precedes at least one ASCII
      digit. `None` stands for the `ValueError` Python raises otherwise. */
  function ParseInt(s: string): (r: Option<int>)
    ensures AllIn(s, IntSpace) ==> r.None?
    ensures s != [] && s[0] !in IntSpace && s[0] != '-' && s[0] != '+' && !IsDigit(s[0]) ==> r.None?
  {
    var a := LeadCount(s, IntSpace);
    var u := s[a..];
    var t := u[..|u| - TrailCount(u, IntSpace)];
    assert AllIn(s, IntSpace) ==> t == [];
    assert s != [] && s[0] !in IntSpace ==> t != [] && t[0] == s[0];
    ParseSigned(t)
  }

  /** The trimmed argument of `int()`: an optional sign, then one or more
      ASCII digits. */
  function ParseSigned(t: string): (r: Option<int>)
    ensures r.Some? ==> t != []
    ensures t != [] && t[0] != '-' && t[0] != '+' && !IsDigit(t[0]) ==> r.None?
  {
    if |t| > 0 && (t[0] == '-' || t[0] == '+') then
      var d := t[1..];
      if |d| > 0 && AllDigits(d) then
        Some(if t[0] == '-' then 0 - DigitsValue(d) else DigitsValue(d))
      else None
    else if |t| > 0 && AllDigits(t) then Some(DigitsValue(t))
    else None
  }

  /** A string that starts with one of the separators `\x1c`-`\x1f` does not
      parse, although `strip()` would remove that character. */
  lemma ParseIntRejectsSeparator(c: char, rest: string)
    requires c in Whitespace - IntSpace
    ensures IsSpace(c)
    ensures ParseInt([c] + rest).None?
  {
    assert ([c] + rest)[0] == c;
  }

  /** `int(str(n)) == n` for every integer. */
  lemma ParseIntToStr(n: int)
    ensures ParseInt(IntToStr(n)) == Some(n)
  {
    var m: nat := if n < 0 then -n else n;
    var d := NatToDigits(m);
    DigitsRoundTrip(m);
    if n < 0 {
      assert IntToStr(n) == "-" + d;
      ParseNegative(d);
    } else {
      assert IntToStr(n) == d;
      ParseUnsigned(d);
    }
  }

  lemma DigitIsPlain(c: char)
    requires IsDigit(c)
    ensures c !in IntSpace && c != '-' && c != '+'
  {
  }

  /** A string with no `IntSpace` character at either end is not trimmed. */
  lemma IntTrimNoop(s: string)
    requires s != [] && s[0] !in IntSpace && s[|s| - 1] !in IntSpace
    ensures ParseInt(s) == ParseSigned(s)
  {
    assert LeadCount(s, IntSpace) == 0;
    assert TrailCount(s, IntSpace) == 0;
    assert s[0..] == s;
    assert s[..|s| - 0] == s;
  }

  /** A bare run of digits parses to its value. */
  lemma ParseUnsigned(d: string)
    requires d != [] && AllDigits(d)
    ensures ParseInt(d) == Some(DigitsValue(d))
  {
    DigitIsPlain(d[0]);
    DigitIsPlain(d[|d| - 1]);
    IntTrimNoop(d);
    assert !(d[0] == '-' || d[0] == '+');
  }

  /** A minus sign and a run of digits parse to the negated value. */
  lemma ParseNegative(d: string)
    requires d != [] && AllDigits(d)
    ensures ParseInt("-" + d) == Some(0 - DigitsValue(d))
  {
    NegativeEnds(d);
    IntTrimNoop("-" + d);
    SignedNegative(d);
  }

  lemma NegativeEnds(d: string)
    requires d != [] && AllDigits(d)
    ensures "-" + d != [] && ("-" + d)[0] !in IntSpace && ("-" + d)[|"-" + d| - 1] !in IntSpace
  {
    DigitIsPlain(d[|d| - 1]);
    assert ("-" + d)[|"-" + d| - 1] == d[|d| - 1];
  }

  lemma SignedNegative(d: string)
    requires d != [] && AllDigits(d)
    ensures ParseSigned("-" + d) == Some(0 - DigitsValue(d))
  {
    assert ("-" + d)[1..] == d;
  }

  /** `int()` ignores `IntSpace` padding around the number. */
  lemma IntTrimPadded(lead: string, core: string, trail: string)
    requires AllIn(lead, IntSpace) && AllIn(trail, IntSpace)
    requires core != [] && core[0] !in IntSpace && core[|core| - 1] !in IntSpace
    ensures ParseInt(lead + core + trail) == ParseSigned(core)
  {
    var s := lead + core + trail;
    var u := core + trail;
    assert s == lead + u;
    assert u[0] == core[0];
    LeadCountPadded(lead, u, IntSpace);
    assert s[|lead|..] == u;
    TrailCountPadded(core, trail, IntSpace);
    assert u[..|u| - |trail|] == core;
  }

  /** An optional sign and a run of digits neither start nor end with
      `IntSpace`. */
  lemma NumeralEnds(sign: string, d: string)
    requires sign == "" || sign == "+" || sign == "-"
    requires d != [] && AllDigits(d)
    ensures sign + d != [] && (sign + d)[0] !in IntSpace && (sign + d)[|sign + d| - 1] !in IntSpace
  {
    var core := sign + d;
    assert core[|core| - 1] == d[|d| - 1];
    DigitIsPlain(d[|d| - 1]);
    DigitIsPlain(d[0]);
    assert core[0] == (if sign == "" then d[0] else sign[0]);
  }

  /** An optional sign and a run of digits make a numeral whose value is the
      digits' value, negated for a minus sign. */
  lemma SignedDigits(sign: string, d: string)
    requires sign == "" || sign == "+" || sign == "-"
    requires d != [] && AllDigits(d)
    ensures ParseSigned(sign + d) == Some(if sign == "-" then 0 - DigitsValue(d) else DigitsValue(d))
  {
    if sign == "" {
      EmptyPrefix(sign, d);
      SignedPlain(d);
    } else if sign == "+" {
      SignedPlus(d);
    } else {
      SignedNegative(d);
    }
  }

  lemma EmptyPrefix<T>(a: seq<T>, b: seq<T>)
    requires a == []
    ensures a + b == b
  {
  }

  lemma SignedPlain(d: string)
    requires d != [] && AllDigits(d)
    ensures ParseSigned(d) == Some(DigitsValue(d))
  {
    DigitIsPlain(d[0]);
  }

  lemma SignedPlus(d: string)
    requires d != [] && AllDigits(d)
    ensures ParseSigned("+" + d) == Some(DigitsValue(d))
  {
    assert ("+" + d)[1..] == d;
  }

  /** `int()` accepts every padded, optionally signed run of digits, with
      the value the digits spell, negated after a minus sign. */
  lemma ParseIntAccepts(lead: string, sign: string, d: string, trail: string)
    requires AllIn(lead, IntSpace) && AllIn(trail, IntSpace)
    requires sign == "" || sign == "+" || sign == "-"
    requires d != [] && AllDigits(d)
    ensures ParseInt(lead + sign + d + trail) == Some(if sign == "-" then 0 - DigitsValue(d) else DigitsValue(d))
  {
    NumeralEnds(sign, d);
    SignedDigits(sign, d);
    IntTrimPadded(lead, sign + d, trail);
    Regroup(lead, sign, d, trail);
  }

  lemma Regroup<T>(a: seq<T>, b: seq<T>, c: seq<T>, e: seq<T>)
    ensures a + b + c + e == a + (b + c) + e
  {
  }

  /** Conversely, whatever `int()` accepts is `IntSpace` padding around an
      optional sign and a run of digits, and its value is the one those
      digits spell: trailing junk such as "5x" is refused. */
  lemma ParseIntShape(s: string)
    requires ParseInt(s).Some?
    ensures exists i, k, j :: (0 <= i <= k < j <= |s| && AllIn(s[..i], IntSpace) && AllIn(s[j..], IntSpace)
      && (k == i || (k == i + 1 && (s[i] == '-' || s[i] == '+'))) && AllDigits(s[k..j])
      && ParseInt(s) == Some(if k == i + 1 && s[i] == '-' then 0 - DigitsValue(s[k..j]) else DigitsValue(s[k..j])))
  {
    var i := LeadCount(s, IntSpace);
    var j := IntTrimEnd(s);
    IntTrimUnfold(s);
    var t := s[i..j];
    SignedShape(t);
    if t[0] == '-' || t[0] == '+' {
      DropOfSlice(s, i, j);
      assert s[i] == t[0];
      assert AllDigits(s[i + 1..j]);
    } else {
      assert AllDigits(s[i..j]);
    }
  }

  /** Where the number `int()` reads ends: before the trailing `IntSpace`. */
  function IntTrimEnd(s: string): (j: nat)
    ensures LeadCount(s, IntSpace) <= j <= |s|
  {
    var i := LeadCount(s, IntSpace);
    i + |s[i..]| - TrailCount(s[i..], IntSpace)
  }

  /** `ParseInt` reads the slice between the leading and the trailing
      `IntSpace`, and only `IntSpace` surrounds that slice. */
  lemma IntTrimUnfold(s: string)
    ensures ParseInt(s) == ParseSigned(s[LeadCount(s, IntSpace)..IntTrimEnd(s)])
    ensures AllIn(s[..LeadCount(s, IntSpace)], IntSpace) && AllIn(s[IntTrimEnd(s)..], IntSpace)
  {
    IntTrimRead(s);
    IntTrimAround(s);
  }

  lemma IntTrimRead(s: string)
    ensures ParseInt(s) == ParseSigned(s[LeadCount(s, IntSpace)..IntTrimEnd(s)])
  {
    var i := LeadCount(s, IntSpace);
    var u := s[i..];
    ParseIntBody(s);
    TakeOfDrop(s, i, |u| - TrailCount(u, IntSpace), IntTrimEnd(s));
  }

  lemma ParseIntBody(s: string)
    ensures var u := s[LeadCount(s, IntSpace)..];
      ParseInt(s) == ParseSigned(u[..|u| - TrailCount(u, IntSpace)])
  {
  }

  lemma IntTrimAround(s: string)
    ensures AllIn(s[..LeadCount(s, IntSpace)], IntSpace) && AllIn(s[IntTrimEnd(s)..], IntSpace)
  {
    var i := LeadCount(s, IntSpace);
    var u := s[i..];
    TailOfDrop(s, i, u, |u| - TrailCount(u, IntSpace), IntSpace);
  }

  lemma TakeOfDrop<T>(s: seq<T>, i: nat, m: nat, j: nat)
    requires j == i + m <= |s|
    ensures s[i..][..m] == s[i..j]
  {
  }

  lemma DropOfSlice<T>(s: seq<T>, i: nat, j: nat)
    requires i < j <= |s|
    ensures s[i..j][1..] == s[i + 1..j] && s[i..j][0] == s[i]
  {
  }

  lemma TailOfDrop(s: string, i: nat, u: string, m: nat, cs: set<char>)
    requires i + m <= |s| && u == s[i..]
    requires forall n :: m <= n < |u| ==> u[n] in cs
    ensures AllIn(s[i + m..], cs)
  {
    var v := s[i + m..];
    forall n | 0 <= n < |v| ensures v[n] in cs {
      assert v[n] == u[m + n];
    }
  }

  /** What `ParseSigned` accepts: a sign and digits, or digits alone. */
  lemma SignedShape(t: string)
    requires ParseSigned(t).Some?
    ensures t != []
    ensures t[0] == '-' || t[0] == '+' ==>
      AllDigits(t[1..]) && ParseSigned(t) == Some(if t[0] == '-' then 0 - DigitsValue(t[1..]) else DigitsValue(t[1..]))
    ensures t[0] != '-' && t[0] != '+' ==> AllDigits(t) && ParseSigned(t) == Some(DigitsValue(t))
  {
  }

  /** `int(" 7 ")` is 7, `int("+5")` is 5 and `int("5x")` raises. */
  lemma ParseIntExamples()
    ensures ParseInt(" 7 ") == Some(7)
    ensures ParseInt("+5") == Some(5)
    ensures ParseInt("5x").None?
  {
    PaddedSevenExample();
    PlusFiveExample();
    TrailingJunkExample();
  }

  lemma PaddedSevenExample()
    ensures ParseInt(" 7 ") == Some(7)
  {
    IntSpellings();
    ParseIntAccepts(" ", "", "7", " ");
  }

  lemma PlusFiveExample()
    ensures ParseInt("+5") == Some(5)
  {
    IntSpellings();
    ParseIntAccepts("", "+", "5", "");
  }

  lemma TrailingJunkExample()
    ensures ParseInt("5x").None?
  {
    IntSpellings();
    IntTrimPadded("", "5x", "");
    JunkIsNotDigits();
  }

  lemma JunkIsNotDigits()
    ensures ParseSigned("5x").None?
  {
    assert !IsDigit("5x"[1]);
  }

  lemma IntSpellings()
    ensures " " + "" + "7" + " " == " 7 "
    ensures "" + "+" + "5" + "" == "+5"
    ensures "" + "5x" + "" == "5x"
    ensures DigitsValue("7") == 7 && DigitsValue("5") == 5
  {
  }


}
