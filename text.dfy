/** The few Python string operations the agenda pipeline relies on, written out
    over `string` (a `seq<char>`): `str.strip()`, `str.split(sep, 1)`,
    `sep.join(parts)` and `str(n)` for an integer `n`. `Split`, Python's
    `str.split(c)`, is not used by the program; it serves to read a joined
    message back line by line. */
module Text {

  /** The characters for which Python's `str.isspace()` holds, and so the
      characters `str.strip()` removes when it is called without an argument:
      U+0009..U+000D, U+001C..U+0020, U+0085, U+00A0, U+1680, U+2000..U+200A,
      U+2028, U+2029, U+202F, U+205F and U+3000. */
  const SpaceChars: set<char> := {
    '\U{9}', '\U{A}', '\U{B}', '\U{C}', '\U{D}',
    '\U{1C}', '\U{1D}', '\U{1E}', '\U{1F}', '\U{20}',
    '\U{85}', '\U{A0}', '\U{1680}',
    '\U{2000}', '\U{2001}', '\U{2002}', '\U{2003}', '\U{2004}', '\U{2005}',
    '\U{2006}', '\U{2007}', '\U{2008}', '\U{2009}', '\U{200A}',
    '\U{2028}', '\U{2029}', '\U{202F}', '\U{205F}', '\U{3000}'
  }

  predicate IsSpace(c: char) {
    c in SpaceChars
  }

  predicate AllSpace(s: string) {
    forall i :: 0 <= i < |s| ==> IsSpace(s[i])
  }

  /** Neither begins nor ends with white space. */
  predicate Unpadded(s: string) {
    s == [] || (!IsSpace(s[0]) && !IsSpace(s[|s| - 1]))
  }

  /** The number of white-space characters `s` begins with. */
  function LeadCount(s: string): (n: nat)
    ensures n <= |s|
  {
    if s != [] && IsSpace(s[0]) then 1 + LeadCount(s[1..]) else 0
  }

  /** `LeadCount` counts exactly the leading white space: all of it, and not
      the first character that follows. */
  lemma {:induction false} LeadCountSpaces(s: string)
    ensures forall i :: 0 <= i < LeadCount(s) ==> IsSpace(s[i])
    ensures LeadCount(s) < |s| ==> !IsSpace(s[LeadCount(s)])
  {
    if s != [] && IsSpace(s[0]) {
      LeadCountSpaces(s[1..]);
    }
  }

  /** The length of `s` without the white space it ends with. */
  function EndCount(s: string): (n: nat)
    ensures n <= |s|
  {
    if s != [] && IsSpace(s[|s| - 1]) then EndCount(s[..|s| - 1]) else |s|
  }

  /** `EndCount` leaves out exactly the trailing white space. */
  lemma {:induction false} EndCountSpaces(s: string)
    ensures forall i :: EndCount(s) <= i < |s| ==> IsSpace(s[i])
    ensures EndCount(s) > 0 ==> !IsSpace(s[EndCount(s) - 1])
  {
    if s != [] && IsSpace(s[|s| - 1]) {
      EndCountSpaces(s[..|s| - 1]);
    }
  }

  /** Python's `s.strip()`: the infix of `s` between its leading and its
      trailing white space. */
  function Strip(s: string): string
  {
    var a := LeadCount(s);
    if a == |s| then []
    else
      var b := EndCount(s);
      assert a < b by {
        LeadCountSpaces(s);
        EndCountSpaces(s);
      }
      s[a..b]
  }

  /** The stripped text neither begins nor ends with white space, is no longer
      than the text, and is empty exactly when the text is all white space. */
  lemma StripShape(s: string)
    ensures Unpadded(Strip(s)) && |Strip(s)| <= |s|
    ensures Strip(s) == [] <==> AllSpace(s)
  {
    LeadCountSpaces(s);
    EndCountSpaces(s);
    var a := LeadCount(s);
    if a < |s| {
      assert !IsSpace(s[a]);
    }
  }

  /** `Strip` removes exactly the surrounding white space: padding a text that
      neither begins nor ends with white space and stripping it gives the text
      back. Together with `Strip`'s own contract this pins the result down. */
  lemma StripExact(lead: string, core: string, trail: string)
    requires AllSpace(lead) && AllSpace(trail) && Unpadded(core)
    ensures Strip(lead + core + trail) == core
  {
    var s := lead + core + trail;
    var m := |lead| + |core|;
    assert forall i :: 0 <= i < |lead| ==> s[i] == lead[i];
    assert forall i :: m <= i < |s| ==> s[i] == trail[i - m];
    if core == [] {
      assert AllSpace(s);
      StripShape(s);
    } else {
      assert s[|lead|] == core[0] && s[m - 1] == core[|core| - 1];
      var a, b := LeadCount(s), EndCount(s);
      LeadCountSpaces(s);
      EndCountSpaces(s);
      assert a == |lead|;
      assert b == m;
      assert s[a..b] == core;
    }
  }

  /** Stripping takes nothing in: a character the text lacks is missing from
      the stripped text too. */
  lemma StripAvoids(s: string, c: char)
    requires c !in s
    ensures c !in Strip(s)
  {
    var a := LeadCount(s);
    if a < |s| {
      var b := EndCount(s);
      LeadCountSpaces(s);
      EndCountSpaces(s);
      assert a < b by {
        assert !IsSpace(s[a]);
      }
      assert Strip(s) == s[a..b];
      assert forall i :: 0 <= i < b - a ==> s[a..b][i] == s[a + i];
    }
  }

  /** A text that neither begins nor ends with white space strips to itself. */
  lemma StripUnpadded(s: string)
    requires Unpadded(s)
    ensures Strip(s) == s
  {
    assert [] + s + [] == s;
    StripExact([], s, []);
  }

  /** Printable ASCII other than the space is not white space. */
  lemma PrintableNotSpace(c: char)
    requires '!' <= c <= '~'
    ensures !IsSpace(c)
  {
  }

  /** Stripping twice is stripping once. */
  lemma StripIdempotent(s: string)
    ensures Strip(Strip(s)) == Strip(s)
  {
    var r := Strip(s);
    StripShape(s);
    LeadCountSpaces(r);
    EndCountSpaces(r);
    if r != [] {
      assert LeadCount(r) == 0 && EndCount(r) == |r|;
      assert r[0..|r|] == r;
    }
  }

  /** Python's `s.split(sep, 1)` on a text that contains `sep`: the part before
      the first `sep` and everything after it (which may contain `sep` again). */
  function SplitOnce(s: string, sep: char): (string, string)
    requires sep in s
  {
    if s[0] == sep then ([], s[1..])
    else
      var (before, after) := SplitOnce(s[1..], sep);
      ([s[0]] + before, after)
  }

  /** The two parts put back together around `sep` give the text, and the
      part before has no `sep`. */
  lemma {:induction false} SplitOnceParts(s: string, sep: char)
    requires sep in s
    ensures s == SplitOnce(s, sep).0 + [sep] + SplitOnce(s, sep).1
    ensures sep !in SplitOnce(s, sep).0
  {
    if s[0] == sep {
      assert s == [] + [sep] + s[1..];
    } else {
      SplitOnceParts(s[1..], sep);
      var (before, after) := SplitOnce(s[1..], sep);
      assert s == [s[0]] + s[1..];
      assert s == ([s[0]] + before) + [sep] + after;
    }
  }

  /** The split happens at the first `sep` and nowhere else. */
  lemma {:induction false} SplitOnceAtFirst(before: string, sep: char, after: string)
    requires sep !in before
    ensures SplitOnce(before + [sep] + after, sep) == (before, after)
  {
    var s := before + [sep] + after;
    if before == [] {
      assert s[0] == sep && s[1..] == after;
      assert SplitOnce(s, sep) == ([], after);
    } else {
      assert s[0] == before[0] && s[1..] == before[1..] + [sep] + after;
      SplitOnceAtFirst(before[1..], sep, after);
      assert [before[0]] + before[1..] == before;
    }
  }

  /** Python's `sep.join(parts)`. */
  function Join(sep: string, parts: seq<string>): string
  {
    if |parts| == 0 then ""
    else if |parts| == 1 then parts[0]
    else parts[0] + sep + Join(sep, parts[1..])
  }

  /** Python's `s.split(c)` for a one-character separator: never an empty
      list. */
  function Split(s: string, c: char): (r: seq<string>)
    ensures |r| >= 1
  {
    if s == [] then [""]
    else
      var rest := Split(s[1..], c);
      if s[0] == c then [""] + rest else [[s[0]] + rest[0]] + rest[1..]
  }

  /** No piece of a split contains the separator. */
  lemma {:induction false} SplitPiecesAvoid(s: string, c: char)
    ensures forall k :: 0 <= k < |Split(s, c)| ==> c !in Split(s, c)[k]
  {
    if s != [] {
      SplitPiecesAvoid(s[1..], c);
      var rest := Split(s[1..], c);
      if s[0] != c {
        var r := Split(s, c);
        assert r[0] == [s[0]] + rest[0];
        assert forall k :: 1 <= k < |r| ==> r[k] == rest[k];
      }
    }
  }

  lemma {:induction false} SplitWithoutSeparator(s: string, c: char)
    requires c !in s
    ensures Split(s, c) == [s]
  {
    if s != [] {
      SplitWithoutSeparator(s[1..], c);
      assert [s[0]] + s[1..] == s;
    }
  }

  /** One character in front: a separator starts a new empty first piece, any
      other character joins the first piece. */
  lemma SplitCons(ch: char, t: string, c: char)
    ensures Split([ch] + t, c) ==
      if ch == c then [""] + Split(t, c) else [[ch] + Split(t, c)[0]] + Split(t, c)[1..]
  {
    assert ([ch] + t)[1..] == t;
  }

  /** Splitting at one occurrence of the separator splits the two sides apart. */
  lemma {:induction false} SplitAt(x: string, c: char, y: string)
    ensures Split(x + [c] + y, c) == Split(x, c) + Split(y, c)
  {
    if x == [] {
      assert x + [c] + y == [c] + y;
      SplitCons(c, y, c);
    } else {
      var x0, x1 := x[0], x[1..];
      assert x == [x0] + x1;
      assert x + [c] + y == [x0] + (x1 + [c] + y);
      SplitAt(x1, c, y);
      SplitCons(x0, x1 + [c] + y, c);
      SplitCons(x0, x1, c);
      var tx, ty := Split(x1, c), Split(y, c);
      if x0 == c {
        AppendAssociative([""], tx, ty);
      } else {
        assert (tx + ty)[0] == tx[0];
        assert (tx + ty)[1..] == tx[1..] + ty;
        AppendAssociative([[x0] + tx[0]], tx[1..], ty);
      }
    }
  }

  lemma AppendAssociative<T>(a: seq<T>, b: seq<T>, c: seq<T>)
    ensures (a + b) + c == a + (b + c)
  {
  }

  /** Splitting a joined text recovers the pieces, provided none of them
      contains the separator. */
  lemma {:induction false} SplitJoin(parts: seq<string>, c: char)
    requires parts != []
    requires forall k :: 0 <= k < |parts| ==> c !in parts[k]
    ensures Split(Join([c], parts), c) == parts
  {
    SplitWithoutSeparator(parts[0], c);
    if |parts| > 1 {
      SplitJoin(parts[1..], c);
      SplitAt(parts[0], c, Join([c], parts[1..]));
      assert [parts[0]] + parts[1..] == parts;
    }
  }

  /** Joining the pieces of a split text gives the text back. */
  lemma {:induction false} JoinSplit(s: string, c: char)
    ensures Join([c], Split(s, c)) == s
  {
    if s != [] {
      var rest := Split(s[1..], c);
      JoinSplit(s[1..], c);
      if s[0] == c {
        assert ([""] + rest)[1..] == rest;
        assert [s[0]] + s[1..] == s;
      } else {
        var r := [[s[0]] + rest[0]] + rest[1..];
        if |rest| > 1 {
          assert r[1..] == rest[1..];
        }
        assert [s[0]] + s[1..] == s;
      }
    }
  }

  /** A joined text contains a character only if a piece or the separator does. */
  lemma {:induction false} JoinAvoids(sep: string, parts: seq<string>, c: char)
    requires c !in sep
    requires forall k :: 0 <= k < |parts| ==> c !in parts[k]
    ensures c !in Join(sep, parts)
  {
    if |parts| > 1 {
      JoinAvoids(sep, parts[1..], c);
    }
  }

  predicate IsDigit(c: char) {
    '0' <= c <= '9'
  }

  predicate AllDigits(s: string) {
    forall k :: 0 <= k < |s| ==> IsDigit(s[k])
  }

  function DigitChar(d: nat): (c: char)
    requires d < 10
    ensures IsDigit(c) && c as int - '0' as int == d
  {
    ('0' as int + d) as char
  }

  /** Python's `str(n)` for `n >= 0`: decimal digits with no leading zero. */
  function NatToDecimal(n: nat): (r: string)
    ensures r != [] && AllDigits(r)
    ensures |r| > 1 ==> r[0] != '0'
    decreases n
  {
    if n < 10 then [DigitChar(n)] else NatToDecimal(n / 10) + [DigitChar(n % 10)]
  }

  /** The number a string of decimal digits denotes. */
  function DecimalValue(s: string): nat
    requires AllDigits(s)
  {
    if s == [] then 0
    else DecimalValue(s[..|s| - 1]) * 10 + (s[|s| - 1] as int - '0' as int)
  }

  lemma {:induction false} DecimalRoundTrip(n: nat)
    ensures DecimalValue(NatToDecimal(n)) == n
    decreases n
  {
    if n >= 10 {
      DecimalRoundTrip(n / 10);
      var s := NatToDecimal(n);
      assert s[..|s| - 1] == NatToDecimal(n / 10);
    }
  }

  /** Python's `str(n)` for any integer `n`. */
  function IntToDecimal(n: int): (r: string)
    ensures r != []
    ensures forall k :: 0 <= k < |r| ==> IsDigit(r[k]) || (k == 0 && r[k] == '-')
  {
    if n < 0 then "-" + NatToDecimal(-n) else NatToDecimal(n)
  }

  /** Python's `int(s)` on the texts `str` produces. */
  function ParseInt(s: string): int
    requires s != [] && (AllDigits(s) || (s[0] == '-' && AllDigits(s[1..])))
  {
    if s[0] == '-' then -(DecimalValue(s[1..]) as int) else DecimalValue(s)
  }

  /** `str(n)` loses nothing: reading it back gives `n`. */
  lemma IntToDecimalRoundTrip(n: int)
    ensures ParseInt(IntToDecimal(n)) == n
  {
    var r := IntToDecimal(n);
    if n < 0 {
      assert r[1..] == NatToDecimal(-n);
      DecimalRoundTrip(-n);
    } else {
      DecimalRoundTrip(n);
    }
  }
}
