/** The node-state reply text exchanged between a monitoring agent and the
    scheduler.  The agent sends `str(state)` of its six-number tuple
    (drs-monitor/monitor.py, serve loop); the scheduler's `getNodeState`
    (drs-scheduler/myenv/K8sEnv.py) drops the first and last character,
    splits the rest on `,` and converts every piece with `float()`.

    Numbers are written here with exactly two decimals, which is what the
    agent's values carry after `'%.2f'` rounding; Python's `repr` may print
    fewer digits (`12.5`), which reads back to the same value just as well.

    Scanning functions work on index ranges of one text rather than on
    sliced copies. */
module Wire {
  import opened Wrappers
  import opened Numeric

  predicate IsDigit(c: char)
  {
    '0' <= c <= '9'
  }

  predicate AllDigits(s: string)
  {
    forall i :: 0 <= i < |s| ==> IsDigit(s[i])
  }

  /** Every character of `s[lo..hi]` is a digit. */
  predicate DigitsIn(s: string, lo: nat, hi: nat)
    requires lo <= hi <= |s|
    decreases hi - lo
  {
    lo == hi || (IsDigit(s[hi - 1]) && DigitsIn(s, lo, hi - 1))
  }

  function Digit(d: int): (c: char)
    requires 0 <= d < 10
    ensures IsDigit(c) && (c as int) - ('0' as int) == d
  {
    ((d + '0' as int) as char)
  }

  function DigitValue(c: char): int
  {
    (c as int) - ('0' as int)
  }

  /** Decimal digits of `n`, most significant first, no leading zeros. */
  function NatDigits(n: nat): (s: string)
    ensures |s| > 0 && AllDigits(s)
  {
    if n < 10 then [Digit(n)] else NatDigits(n / 10) + [Digit(n % 10)]
  }

  /** Value of the digits `s[lo..hi]`. */
  function ValueIn(s: string, lo: nat, hi: nat): int
    requires lo <= hi <= |s|
    decreases hi - lo
  {
    if lo == hi then 0 else ValueIn(s, lo, hi - 1) * 10 + DigitValue(s[hi - 1])
  }

  function Pow10(k: nat): (r: nat)
    ensures r > 0
  {
    if k == 0 then 1 else 10 * Pow10(k - 1)
  }

  /** `w.ff`: a whole part and exactly two decimals, e.g. `3.05`. */
  function DecimalText(w: nat, f: nat): (s: string)
    requires f < 100
    ensures |s| > 0 && IsDigit(s[0]) && IsDigit(s[|s| - 1])
  {
    NatDigits(w) + "." + [Digit(f / 10), Digit(f % 10)]
  }

  /** Text of the number `c / 100`, e.g. `-3.05`. */
  function ShowCents(c: int): string
  {
    if c < 0 then "-" + DecimalText((-c) / 100, (-c) % 100) else DecimalText(c / 100, c % 100)
  }

  /** Text of a number that has (at most) two decimals. */
  function Show(x: real): string
  {
    ShowCents((x * 100.0).Floor)
  }

  /** Index of the first `c` in `s[lo..hi]`, or `hi` when there is none. */
  function IndexIn(s: string, c: char, lo: nat, hi: nat): (i: nat)
    requires lo <= hi <= |s|
    ensures lo <= i <= hi
    ensures i < hi ==> s[i] == c
    decreases hi - lo
  {
    if lo == hi then hi else if s[lo] == c then lo else IndexIn(s, c, lo + 1, hi)
  }

  /** Index of the first `c` in `s`, or `|s|` when there is none. */
  function IndexOf(s: string, c: char): (i: nat)
    ensures i <= |s|
  {
    IndexIn(s, c, 0, |s|)
  }

  /** Index of the first non-space at or after `lo`, or `|s|`. */
  function SkipSpaces(s: string, lo: nat): (i: nat)
    requires lo <= |s|
    ensures lo <= i <= |s|
    decreases |s| - lo
  {
    if lo < |s| && s[lo] == ' ' then SkipSpaces(s, lo + 1) else lo
  }

  /** End of `s[..hi]` with its trailing spaces removed. */
  function TrimEnd(s: string, hi: nat): (j: nat)
    requires hi <= |s|
    ensures j <= hi
  {
    if hi > 0 && s[hi - 1] == ' ' then TrimEnd(s, hi - 1) else hi
  }

  /** An unsigned decimal: digits, optionally a point and more digits, with
      at least one digit in all (`5`, `5.`, `.5`, `5.25`). */
  function ParseUnsigned(t: string): Option<real>
  {
    var point := IndexIn(t, '.', 0, |t|);
    var frac := if point < |t| then point + 1 else |t|;
    if DigitsIn(t, 0, point) && DigitsIn(t, frac, |t|) && point + (|t| - frac) > 0 then
      Some(ValueIn(t, 0, point) as real + (ValueIn(t, frac, |t|) as real) / (Pow10(|t| - frac) as real))
    else None
  }

  function Negate(v: Option<real>): Option<real>
  {
    match v
    case Some(x) => Some(-x)
    case None => None
  }

  /** A decimal with an optional leading sign. */
  function ParseSigned(t: string): Option<real>
    requires |t| > 0
  {
    if t[0] == '-' then Negate(ParseUnsigned(t[1..]))
    else if t[0] == '+' then ParseUnsigned(t[1..])
    else ParseUnsigned(t)
  }

  /** `s.strip()` for spaces: the text between the leading and the trailing
      spaces. */
  function Trim(s: string): string
  {
    var lo := SkipSpaces(s, 0);
    var hi := TrimEnd(s, |s|);
    if lo < hi then s[lo..hi] else ""
  }

  /** `float(s)` on a plain decimal, surrounding spaces and a sign allowed;
      `None` where Python raises `ValueError`. */
  function ParseNumber(s: string): Option<real>
  {
    var t := Trim(s);
    if |t| > 0 then ParseSigned(t) else None
  }

  /** `IndexIn` is determined by the first occurrence. */
  lemma {:induction false} IndexInIs(s: string, c: char, lo: nat, hi: nat, k: nat)
    requires lo <= k <= hi <= |s|
    requires k < hi ==> s[k] == c
    requires forall j :: lo <= j < k ==> s[j] != c
    ensures IndexIn(s, c, lo, hi) == k
    decreases k - lo
  {
    if lo < k {
      assert s[lo] != c;
      IndexInIs(s, c, lo + 1, hi, k);
    }
  }

  /** A run whose every character is a digit is a digit run. */
  lemma {:induction false} DigitsInAll(s: string, lo: nat, hi: nat)
    requires lo <= hi <= |s|
    requires forall j :: lo <= j < hi ==> IsDigit(s[j])
    ensures DigitsIn(s, lo, hi)
    decreases hi - lo
  {
    if lo < hi {
      DigitsInAll(s, lo, hi - 1);
    }
  }

  /** The value of a digit run depends only on its characters. */
  lemma {:induction false} ValueInShift(s: string, a: nat, t: string, b: nat, n: nat)
    requires a + n <= |s| && b + n <= |t|
    requires s[a..a + n] == t[b..b + n]
    ensures ValueIn(s, a, a + n) == ValueIn(t, b, b + n)
  {
    if n > 0 {
      assert s[a..a + n - 1] == s[a..a + n][..n - 1] == t[b..b + n][..n - 1] == t[b..b + n - 1];
      ValueInShift(s, a, t, b, n - 1);
      assert s[a + n - 1] == s[a..a + n][n - 1] == t[b..b + n][n - 1] == t[b + n - 1];
    }
  }

  lemma {:induction false} NatDigitsValue(n: nat)
    ensures ValueIn(NatDigits(n), 0, |NatDigits(n)|) == n
  {
    if n >= 10 {
      var d := NatDigits(n / 10);
      var s := NatDigits(n);
      assert s == d + [Digit(n % 10)];
      NatDigitsValue(n / 10);
      assert s[0..|d|] == d[0..|d|];
      ValueInShift(s, 0, d, 0, |d|);
    }
  }

  /** A text laid out as `p` digits worth `w`, a point and two digits worth
      `f` reads as `w + f / 100`. */
  lemma PointedValue(t: string, p: nat, w: int, f: int)
    requires |t| == p + 3 && IndexIn(t, '.', 0, |t|) == p
    requires DigitsIn(t, 0, p) && DigitsIn(t, p + 1, p + 3)
    requires ValueIn(t, 0, p) == w && ValueIn(t, p + 1, p + 3) == f
    ensures ParseUnsigned(t) == Some(w as real + (f as real) / 100.0)
  {
    var point := IndexIn(t, '.', 0, |t|);
    var frac := point + 1;
    assert point < |t| && |t| - frac == 2;
    assert Pow10(2) == 100;
    var scale := Pow10(|t| - frac) as real;
    assert scale == 100.0;
    assert ValueIn(t, 0, point) == w && ValueIn(t, frac, |t|) == f;
    assert DigitsIn(t, 0, point) && DigitsIn(t, frac, |t|) && point + (|t| - frac) > 0;
    assert ParseUnsigned(t) == Some(w as real + (f as real) / scale);
  }

  /** The layout of `DecimalText`. */
  lemma DecimalTextLayout(w: nat, f: nat)
    requires f < 100
    ensures var t, p := DecimalText(w, f), |NatDigits(w)|;
      |t| == p + 3 && IndexIn(t, '.', 0, |t|) == p &&
      DigitsIn(t, 0, p) && DigitsIn(t, p + 1, p + 3) &&
      ValueIn(t, 0, p) == w && ValueIn(t, p + 1, p + 3) == f
  {
    var d := NatDigits(w);
    var t := DecimalText(w, f);
    var p := |d|;
    assert t == d + "." + [Digit(f / 10), Digit(f % 10)];
    assert |t| == p + 3 && t[p] == '.' && t[p + 1] == Digit(f / 10) && t[p + 2] == Digit(f % 10);
    assert forall j :: 0 <= j < p ==> t[j] == d[j];
    IndexInIs(t, '.', 0, |t|, p);
    DigitsInAll(t, 0, p);
    assert DigitsIn(t, p + 1, p + 3);
    assert t[0..p] == d[0..p];
    ValueInShift(t, 0, d, 0, p);
    NatDigitsValue(w);
    assert ValueIn(t, p + 1, p + 2) == f / 10;
  }

  /** `DecimalText` reads back as the number it spells. */
  lemma DecimalTextValue(w: nat, f: nat)
    requires f < 100
    ensures ParseUnsigned(DecimalText(w, f)) == Some(w as real + (f as real) / 100.0)
  {
    DecimalTextLayout(w, f);
    PointedValue(DecimalText(w, f), |NatDigits(w)|, w, f);
  }

  /** Skipping spaces after a prefix is skipping them in the rest. */
  lemma {:induction false} SkipSpacesShift(p: string, s: string, lo: nat)
    requires lo <= |s|
    ensures SkipSpaces(p + s, |p| + lo) == |p| + SkipSpaces(s, lo)
    decreases |s| - lo
  {
    var t := p + s;
    assert lo < |s| ==> t[|p| + lo] == s[lo];
    if lo < |s| && s[lo] == ' ' {
      SkipSpacesShift(p, s, lo + 1);
    }
  }

  /** Trimming trailing spaces after a prefix trims them in the rest, unless
      the rest is all spaces. */
  lemma {:induction false} TrimEndShift(p: string, s: string, hi: nat)
    requires hi <= |s|
    ensures TrimEnd(s, hi) > 0 ==> TrimEnd(p + s, |p| + hi) == |p| + TrimEnd(s, hi)
    ensures TrimEnd(s, hi) == 0 ==> TrimEnd(p + s, |p| + hi) == TrimEnd(p + s, |p|)
  {
    var t := p + s;
    assert hi > 0 ==> t[|p| + hi - 1] == s[hi - 1];
    if hi > 0 && s[hi - 1] == ' ' {
      TrimEndShift(p, s, hi - 1);
    }
  }

  /** A slice of the text after a prefix. */
  lemma SliceAfterPrefix(p: string, s: string, a: nat, b: nat)
    requires a <= b <= |s|
    ensures (p + s)[|p| + a..|p| + b] == s[a..b]
  {
    var t := p + s;
    assert forall i :: 0 <= i < b - a ==> t[|p| + a..|p| + b][i] == s[a..b][i];
  }

  /** A leading space does not survive trimming. */
  lemma TrimLeadingSpace(s: string)
    ensures Trim(" " + s) == Trim(s)
  {
    var t := " " + s;
    var lo, hi := SkipSpaces(s, 0), TrimEnd(s, |s|);
    var tlo, thi := SkipSpaces(t, 0), TrimEnd(t, |t|);
    assert tlo == SkipSpaces(t, 1);
    SkipSpacesShift(" ", s, 0);
    TrimEndShift(" ", s, |s|);
    assert tlo == 1 + lo;
    if hi == 0 {
      assert TrimEnd(t, 1) == 0;
      assert thi == 0;
      assert Trim(t) == "" && Trim(s) == "";
    } else {
      assert thi == 1 + hi;
      if lo < hi {
        SliceAfterPrefix(" ", s, lo, hi);
      } else {
        assert Trim(t) == "" && Trim(s) == "";
      }
    }
  }

  /** A text that neither starts nor ends with a space is its own trim. */
  lemma TrimFixed(s: string)
    requires |s| > 0 && s[0] != ' ' && s[|s| - 1] != ' '
    ensures Trim(s) == s
  {
    assert SkipSpaces(s, 0) == 0;
    assert TrimEnd(s, |s|) == |s|;
    assert s[0..|s|] == s;
  }

  /** `float()` ignores a leading space. */
  lemma ParseLeadingSpace(s: string)
    ensures ParseNumber(" " + s) == ParseNumber(s)
  {
    TrimLeadingSpace(s);
  }

  /** A digit-led unsigned decimal, bare or behind a minus sign, parses as
      its value or the negated value. */
  lemma SignedValue(s: string, u: string, negative: bool, v: real)
    requires |u| > 0 && IsDigit(u[0]) && IsDigit(u[|u| - 1])
    requires ParseUnsigned(u) == Some(v)
    requires s == if negative then "-" + u else u
    ensures ParseNumber(s) == Some(if negative then -v else v)
  {
    assert s[|s| - 1] == u[|u| - 1];
    TrimFixed(s);
    if negative {
      assert s[1..] == u;
    }
  }

  /** The number `ShowCents(c)` spells, read off its parts. */
  function ShownValue(c: int): real
  {
    var m := if c < 0 then -c else c;
    var v := (m / 100) as real + ((m % 100) as real) / 100.0;
    if c < 0 then -v else v
  }

  /** What `ShowCents(c)` spells is `c / 100`. */
  lemma ShownValueIsCents(c: int)
    ensures ShownValue(c) == c as real / 100.0
  {
    var m := if c < 0 then -c else c;
    assert m == 100 * (m / 100) + m % 100;
  }

  /** `ShowCents(c)` reads back as the number it spells. */
  lemma ParseShownCents(c: int)
    ensures ParseNumber(ShowCents(c)) == Some(ShownValue(c))
  {
    var m := if c < 0 then -c else c;
    var w, f := m / 100, m % 100;
    var v := w as real + (f as real) / 100.0;
    DecimalTextValue(w, f);
    SignedValue(ShowCents(c), DecimalText(w, f), c < 0, v);
    assert ShownValue(c) == if c < 0 then -v else v;
  }

  /** A two-decimal value is `c / 100` for the `c` that `Show` prints. */
  lemma CentsOf(x: real)
    requires IsCents(x)
    ensures x == ((x * 100.0).Floor as real) / 100.0
  {
  }

  /** `float(str(x))` gives `x` back. */
  lemma ParseShow(x: real)
    requires IsCents(x)
    ensures ParseNumber(Show(x)) == Some(x)
  {
    var c := (x * 100.0).Floor;
    CentsOf(x);
    ShownValueIsCents(c);
    ParseShownCents(c);
  }

  /** The same behind the space that follows a comma in a tuple. */
  lemma ParseSpacedShow(x: real)
    requires IsCents(x)
    ensures ParseNumber(" " + Show(x)) == Some(x)
  {
    ParseShow(x);
    ParseLeadingSpace(Show(x));
  }

  /** `sep.join(parts)`. */
  function Join(parts: seq<string>, sep: char): string
    requires |parts| > 0
  {
    if |parts| == 1 then parts[0] else parts[0] + [sep] + Join(parts[1..], sep)
  }

  /** `s.split(sep)`: the pieces between separators; `""` splits into `[""]`. */
  function Split(s: string, sep: char): (r: seq<string>)
    ensures |r| > 0
    decreases |s|
  {
    var i := IndexOf(s, sep);
    if i == |s| then [s] else [s[..i]] + Split(s[i + 1..], sep)
  }

  /** Splitting at the first separator. */
  lemma SplitAt(s: string, sep: char, k: nat)
    requires k < |s| && s[k] == sep
    requires forall j :: 0 <= j < k ==> s[j] != sep
    ensures Split(s, sep) == [s[..k]] + Split(s[k + 1..], sep)
  {
    IndexInIs(s, sep, 0, |s|, k);
  }

  /** Splitting undoes joining when no piece contains the separator. */
  lemma {:induction false} SplitJoin(parts: seq<string>, sep: char)
    requires |parts| > 0
    requires forall i :: 0 <= i < |parts| ==> sep !in parts[i]
    ensures Split(Join(parts, sep), sep) == parts
    decreases |parts|
  {
    var s := Join(parts, sep);
    var p := parts[0];
    if |parts| == 1 {
      IndexInIs(s, sep, 0, |s|, |s|);
    } else {
      var rest := Join(parts[1..], sep);
      assert sep !in p;
      assert s == p + [sep] + rest;
      JoinedPieces(p, sep, rest);
      SplitAt(s, sep, |p|);
      SplitJoin(parts[1..], sep);
      HeadTail(parts);
    }
  }

  /** The pieces around the first separator of `p + [sep] + rest`. */
  lemma JoinedPieces(p: string, sep: char, rest: string)
    requires sep !in p
    ensures var s := p + [sep] + rest;
            s[|p|] == sep && (forall j :: 0 <= j < |p| ==> s[j] != sep) &&
            s[..|p|] == p && s[|p| + 1..] == rest
  {
    var s := p + [sep] + rest;
    assert forall j :: 0 <= j < |p| ==> s[j] == p[j];
  }

  lemma HeadTail<T>(xs: seq<T>)
    requires |xs| > 0
    ensures xs == [xs[0]] + xs[1..]
  {
  }

  /** `[parse(item) for item in parts]`, raising `ValueError` at the first
      piece `parse` rejects. */
  function ParseFields(parts: seq<string>, parse: string -> Option<real>): (r: Result<seq<real>, Fault>)
    ensures r.Success? <==> forall i :: 0 <= i < |parts| ==> parse(parts[i]).Some?
    ensures r.Failure? ==> r.error == ValueError
    ensures r.Success? ==> |r.value| == |parts|
    ensures r.Success? ==> forall i :: 0 <= i < |parts| ==> parse(parts[i]) == Some(r.value[i])
    decreases |parts|
  {
    if |parts| == 0 then Success([])
    else match parse(parts[0])
      case None => Failure(ValueError)
      case Some(v) =>
        match ParseFields(parts[1..], parse)
        case Failure(e) => Failure(e)
        case Success(vs) => Success([v] + vs)
  }

  /** `msg[1:-1]`: empty for texts shorter than two characters. */
  function StripEnds(msg: string): string
  {
    if |msg| >= 2 then msg[1..|msg| - 1] else ""
  }

  /** `getNodeState`: one number per comma-separated field of the reply. */
  function ParseReply(msg: string): (r: Result<seq<real>, Fault>)
    ensures r.Success? ==> |r.value| == |Split(StripEnds(msg), ',')|
    ensures r.Failure? ==> r.error == ValueError
  {
    ParseFields(Split(StripEnds(msg), ','), ParseNumber)
  }

  /** The fields of `str(tuple)`: the first number bare, the others after
      the `", "` separator's space. */
  function TupleFields(xs: seq<real>): (r: seq<string>)
    ensures |r| == |xs|
  {
    seq(|xs|, i requires 0 <= i < |xs| => if i == 0 then Show(xs[i]) else " " + Show(xs[i]))
  }

  /** `str(t)` for a tuple `t` of two or more numbers: `(a, b, ...)`.  (A
      one-element tuple would read `(a,)`; the agent always sends six.) */
  function EncodeTuple(xs: seq<real>): (msg: string)
    requires |xs| >= 2
    ensures |msg| >= 2 && msg[0] == '(' && msg[|msg| - 1] == ')'
  {
    "(" + Join(TupleFields(xs), ',') + ")"
  }

  lemma NoCommaInShow(x: real)
    ensures ',' !in Show(x)
    ensures ',' !in " " + Show(x)
  {
    var c := (x * 100.0).Floor;
    var m := if c < 0 then -c else c;
    var d := NatDigits(m / 100);
    assert forall j :: 0 <= j < |d| ==> d[j] != ',';
    assert ',' !in DecimalText(m / 100, m % 100);
    assert Show(x) == ShowCents(c);
  }

  lemma TupleField(xs: seq<real>, i: nat)
    requires i < |xs| && IsCents(xs[i])
    ensures ',' !in TupleFields(xs)[i]
    ensures ParseNumber(TupleFields(xs)[i]) == Some(xs[i])
  {
    NoCommaInShow(xs[i]);
    if i == 0 {
      ParseShow(xs[i]);
    } else {
      ParseSpacedShow(xs[i]);
    }
  }

  /** When `parse` accepts every piece, the fields are exactly its values. */
  lemma ParseFieldsAll(parts: seq<string>, parse: string -> Option<real>, xs: seq<real>)
    requires |parts| == |xs|
    requires forall i :: 0 <= i < |parts| ==> parse(parts[i]) == Some(xs[i])
    ensures ParseFields(parts, parse) == Success(xs)
  {
    var r := ParseFields(parts, parse);
    assert r.Success? by {
      assert forall i :: 0 <= i < |parts| ==> parse(parts[i]).Some?;
    }
    var v := r.value;
    forall i | 0 <= i < |xs|
      ensures v[i] == xs[i]
    {
      assert parse(parts[i]) == Some(v[i]);
    }
    assert v == xs;
  }

  /** Round trip of the protocol: whatever two-decimal numbers the agent
      sends, the scheduler reads back exactly those numbers in that order. */
  lemma ReplyRoundTrip(xs: seq<real>)
    requires |xs| >= 2
    requires forall i :: 0 <= i < |xs| ==> IsCents(xs[i])
    ensures ParseReply(EncodeTuple(xs)) == Success(xs)
  {
    var fields := TupleFields(xs);
    var msg := EncodeTuple(xs);
    assert StripEnds(msg) == Join(fields, ',');
    assert forall i :: 0 <= i < |fields| ==> ',' !in fields[i] && ParseNumber(fields[i]) == Some(xs[i]) by {
      forall i | 0 <= i < |fields|
        ensures ',' !in fields[i] && ParseNumber(fields[i]) == Some(xs[i])
      {
        TupleField(xs, i);
      }
    }
    assert Split(Join(fields, ','), ',') == fields by { SplitJoin(fields, ','); }
    assert ParseFields(fields, ParseNumber) == Success(xs) by { ParseFieldsAll(fields, ParseNumber, xs); }
  }
}
