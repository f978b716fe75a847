/** Printing, parsing and sorting decimals as text (types/decimal.go). */
module DecimalText {
  import opened Common
  import opened Lex
  import opened Outcomes
  import opened Decimals

  const PRECISION: int := 18
  const ZERO: byte := 48
  const DOT: byte := 46
  const MINUS: byte := 45
  const PLUS: byte := 43

  function Zeros(n: nat): Bytes {
    seq(n, _ => ZERO)
  }

  predicate IsDigit(b: byte) {
    48 <= b <= 57
  }

  predicate AllDigits(s: Bytes) {
    forall i :: 0 <= i < |s| ==> IsDigit(s[i])
  }

  /** Decimal digits of a natural number, as `big.Int.MarshalText` writes them. */
  function Digits(n: nat): (ds: Bytes)
    ensures ds != [] && AllDigits(ds)
  {
    if n < 10 then [ZERO + n] else Digits(n / 10) + [ZERO + n % 10]
  }

  /** The number a digit string denotes. */
  function Number(s: Bytes): (n: nat)
    requires AllDigits(s)
  {
    if s == [] then 0 else 10 * Number(s[..|s| - 1]) + (s[|s| - 1] - ZERO)
  }

  function Pow10(n: nat): (p: int)
    ensures p >= 1
  {
    if n == 0 then 1 else 10 * Pow10(n - 1)
  }

  lemma NumberSnoc(s: Bytes, b: byte)
    requires AllDigits(s) && IsDigit(b)
    ensures Number(s + [b]) == 10 * Number(s) + (b - ZERO)
  {
    assert (s + [b])[..|s + [b]| - 1] == s;
  }

  lemma {:induction false} NumberOfDigits(n: nat)
    ensures Number(Digits(n)) == n
  {
    if n < 10 {
      NumberSnoc([], ZERO + n);
      assert [] + [ZERO + n] == [ZERO + n];
    } else {
      NumberOfDigits(n / 10);
      NumberSnoc(Digits(n / 10), ZERO + n % 10);
    }
  }

  lemma ShiftDigits(x: int, p: int, y: int, d: int)
    ensures 10 * (x * p + y) + d == x * (10 * p) + (10 * y + d)
  {
  }

  lemma {:induction false} NumberConcat(u: Bytes, v: Bytes)
    requires AllDigits(u) && AllDigits(v)
    ensures AllDigits(u + v) && Number(u + v) == Number(u) * Pow10(|v|) + Number(v)
  {
    if v == [] {
      assert u + v == u;
    } else {
      hide Number;
      var w, b := v[..|v| - 1], v[|v| - 1];
      NumberConcat(u, w);
      assert u + v == (u + w) + [b];
      assert v == w + [b];
      NumberSnoc(u + w, b);
      NumberSnoc(w, b);
      ShiftDigits(Number(u), Pow10(|w|), Number(w), b - ZERO);
    }
  }

  lemma {:induction false} NumberOfZeros(n: nat)
    ensures AllDigits(Zeros(n)) && Number(Zeros(n)) == 0
  {
    if n > 0 {
      NumberOfZeros(n - 1);
      assert Zeros(n) == Zeros(n - 1) + [ZERO];
      NumberSnoc(Zeros(n - 1), ZERO);
    }
  }

  // ---------------------------------------------------------------- String

  method CopyInto(dst: array<byte>, at: nat, src: Bytes)
    requires at + |src| <= dst.Length
    modifies dst
    ensures dst[at..at + |src|] == src
    ensures dst[..at] == old(dst[..at]) && dst[at + |src|..] == old(dst[at + |src|..])
  {
    forall k | 0 <= k < |src| {
      dst[at + k] := src[k];
    }
  }

  function Unsigned(ds: Bytes): Bytes {
    if |ds| <= PRECISION then [ZERO, DOT] + Zeros(PRECISION - |ds|) + ds
    else ds[..|ds| - PRECISION] + [DOT] + ds[|ds| - PRECISION..]
  }

  function DecString(raw: int): Bytes {
    (if raw < 0 then [MINUS] else []) + Unsigned(Digits(Abs(raw)))
  }

  /** A value below one: `0.`, padding and the digits. */
  method FillFraction(bzInt: Bytes) returns (bzStr: array<byte>)
    requires |bzInt| <= PRECISION
    ensures fresh(bzStr) && bzStr[..] == Unsigned(bzInt)
  {
    bzStr := new byte[PRECISION + 2];
    bzStr[0] := ZERO;
    bzStr[1] := DOT;
    var i := 0;
    while i < PRECISION - |bzInt|
      invariant 0 <= i <= PRECISION - |bzInt|
      invariant bzStr[0] == ZERO && bzStr[1] == DOT
      invariant forall k :: 2 <= k < i + 2 ==> bzStr[k] == ZERO
    {
      bzStr[i + 2] := ZERO;
      i := i + 1;
    }
    ghost var front := bzStr[..2 + (PRECISION - |bzInt|)];
    assert front == [ZERO, DOT] + Zeros(PRECISION - |bzInt|);
    CopyInto(bzStr, 2 + (PRECISION - |bzInt|), bzInt);
    assert bzStr[..] == front + bzInt;
  }

  /** A value of one or more: the digits with the point put in. */
  method FillWhole(bzInt: Bytes) returns (bzStr: array<byte>)
    requires |bzInt| > PRECISION
    ensures fresh(bzStr) && bzStr[..] == Unsigned(bzInt)
  {
    bzStr := new byte[|bzInt| + 1];
    var decPointPlace := |bzInt| - PRECISION;
    CopyInto(bzStr, 0, bzInt[..decPointPlace]);
    bzStr[decPointPlace] := DOT;
    ghost var front := bzStr[..decPointPlace + 1];
    assert front == bzInt[..decPointPlace] + [DOT];
    CopyInto(bzStr, decPointPlace + 1, bzInt[decPointPlace..]);
    assert bzStr[..] == front + bzInt[decPointPlace..];
  }

  /** `Dec.String` fills a byte buffer of the exact size. */
  method String(raw: int) returns (s: Bytes)
    ensures s == DecString(raw)
  {
    var bzInt := Digits(Abs(raw));
    var bzStr: array<byte>;
    if |bzInt| <= PRECISION {
      bzStr := FillFraction(bzInt);
    } else {
      bzStr := FillWhole(bzInt);
    }
    s := if raw < 0 then [MINUS] + bzStr[..] else bzStr[..];
    assert [] + bzStr[..] == bzStr[..];
  }

  // ---------------------------------------------------------------- NewDecFromStr

  datatype ParseError = EmptyString | InvalidLength | InvalidString | InvalidPrecision | InvalidNumber | OutOfRange

  datatype ParseResult = Parsed(raw: int) | Failed(error: ParseError)

  /** `strings.Split(s, ".")`. */
  function Split(s: Bytes): (parts: seq<Bytes>)
    ensures |parts| >= 1
  {
    if s == [] then [[]]
    else
      var rest := Split(s[1..]);
      if s[0] == DOT then [[]] + rest else [[s[0]] + rest[0]] + rest[1..]
  }

  /** `big.Int.SetString(s, 10)`: an optional sign and at least one digit. */
  function SetString(s: Bytes): Option<int> {
    var body := if s != [] && (s[0] == MINUS || s[0] == PLUS) then s[1..] else s;
    if body == [] || !AllDigits(body) then None
    else
      var n: int := Number(body);
      Some(if s[0] == MINUS then -n else n)
  }

  /** What follows the sign: up to 18 decimals, filled up with zeros and read as one integer. */
  function ParseUnsigned(rest: Bytes): ParseResult {
    if rest == [] then Failed(EmptyString)
    else
      var strs := Split(rest);
      if |strs| > 2 then Failed(InvalidString)
      else if |strs| == 2 && (strs[1] == [] || strs[0] == []) then Failed(InvalidLength)
      else
        var decimals := if |strs| == 2 then strs[1] else [];
        if |decimals| > PRECISION then Failed(InvalidPrecision)
        else
          var combined := SetString(strs[0] + decimals + Zeros(PRECISION - |decimals|));
          if combined.None? then Failed(InvalidNumber)
          else if !(Abs(combined.value) < TWO256) then Failed(OutOfRange)
          else Parsed(combined.value)
  }

  function NewDecFromStr(str: Bytes): ParseResult {
    if str == [] then Failed(EmptyString)
    else if str[0] == MINUS then
      var r := ParseUnsigned(str[1..]);
      if r.Parsed? then Parsed(-r.raw) else r
    else ParseUnsigned(str)
  }

  lemma {:induction false} SplitNone(u: Bytes)
    requires DOT !in u
    ensures Split(u) == [u]
  {
    if u != [] {
      SplitNone(u[1..]);
      assert u == [u[0]] + u[1..];
    }
  }

  lemma {:induction false} SplitOnce(u: Bytes, v: Bytes)
    requires DOT !in u && DOT !in v
    ensures Split(u + [DOT] + v) == [u, v]
  {
    var s := u + [DOT] + v;
    if u == [] {
      assert s == [DOT] + v && s[1..] == v;
      SplitNone(v);
    } else {
      assert s[1..] == u[1..] + [DOT] + v;
      SplitOnce(u[1..], v);
      assert u == [u[0]] + u[1..];
    }
  }

  lemma {:induction false} SplitShape(s: Bytes)
    ensures |Split(s)| == 1 ==> Split(s)[0] == s && DOT !in s
    ensures |Split(s)| == 2 ==> s == Split(s)[0] + [DOT] + Split(s)[1]
  {
    if s != [] {
      SplitShape(s[1..]);
      assert s == [s[0]] + s[1..];
    }
  }

  predicate IsSign(sign: Bytes) {
    sign == [] || sign == [PLUS] || sign == [MINUS]
  }

  ghost function WithSign(sign: Bytes, n: int): int {
    if sign == [MINUS] then -n else n
  }

  lemma SetStringSigned(sign: Bytes, ds: Bytes)
    requires IsSign(sign) && AllDigits(ds) && ds != []
    ensures SetString(sign + ds) == Some(WithSign(sign, Number(ds)))
  {
    hide Number;
    if sign == [] {
      assert sign + ds == ds;
    } else {
      assert (sign + ds)[1..] == ds && (sign + ds)[0] == sign[0];
    }
  }

  /** What is read as a number has digits after at most one sign. */
  lemma SetStringShape(s: Bytes) returns (sign: Bytes)
    requires SetString(s).Some?
    ensures IsSign(sign) && |sign| < |s| && s[..|sign|] == sign && AllDigits(s[|sign|..])
  {
    hide Number;
    if s[0] == MINUS || s[0] == PLUS {
      sign := [s[0]];
    } else {
      sign := [];
      assert s[0..] == s;
    }
  }

  /** The integer that is read: the digits without the point, filled up to 18 decimals. */
  function Filled(whole: Bytes, fraction: Bytes): Bytes
    requires |fraction| <= PRECISION
  {
    whole + fraction + Zeros(PRECISION - |fraction|)
  }

  lemma FilledNumber(whole: Bytes, fraction: Bytes)
    requires AllDigits(whole) && AllDigits(fraction) && |fraction| <= PRECISION
    ensures AllDigits(Filled(whole, fraction))
    ensures Number(Filled(whole, fraction))
         == (Number(whole) * Pow10(|fraction|) + Number(fraction)) * Pow10(PRECISION - |fraction|)
  {
    hide Number, Pow10;
    NumberConcat(whole, fraction);
    NumberOfZeros(PRECISION - |fraction|);
    NumberConcat(whole + fraction, Zeros(PRECISION - |fraction|));
  }

  /** A text the parser reads: a minus sign, a second sign that belongs to the integer, digits, and a point
      with up to 18 decimals. The digits in front of the point may be missing after a second sign. */
  datatype Numeral = Numeral(neg: bool, sign: Bytes, whole: Bytes, point: bool, fraction: Bytes) {
    ghost predicate WellFormed() {
      && IsSign(sign) && (sign == [MINUS] ==> neg)
      && AllDigits(whole) && AllDigits(fraction) && sign + whole != []
      && (if point then 1 <= |fraction| <= PRECISION else fraction == [])
    }

    ghost function Unsigned(): Bytes {
      sign + whole + (if point then [DOT] + fraction else [])
    }

    ghost function Text(): Bytes {
      (if neg then [MINUS] else []) + Unsigned()
    }

    /** The denoted decimal in last places. */
    ghost function Raw(): int
      requires WellFormed()
    {
      var n := WithSign(sign, (Number(whole) * Pow10(|fraction|) + Number(fraction)) * Pow10(PRECISION - |fraction|));
      if neg then -n else n
    }
  }

  lemma NumeralSplit(m: Numeral)
    requires m.WellFormed()
    ensures Split(m.Unsigned()) == if m.point then [m.sign + m.whole, m.fraction] else [m.sign + m.whole]
  {
    assert DOT !in m.sign && DOT !in m.whole && DOT !in m.fraction;
    if m.point {
      assert m.Unsigned() == (m.sign + m.whole) + [DOT] + m.fraction;
      SplitOnce(m.sign + m.whole, m.fraction);
    } else {
      assert m.Unsigned() == m.sign + m.whole;
      SplitNone(m.sign + m.whole);
    }
  }

  lemma NumeralStart(m: Numeral)
    requires m.WellFormed()
    ensures m.Unsigned() != [] && (!m.neg ==> m.Unsigned()[0] != MINUS)
  {
    assert (m.sign + m.whole)[0] == m.Unsigned()[0];
    assert m.sign == [] ==> m.sign + m.whole == m.whole;
  }

  lemma FilledDigits(whole: Bytes, fraction: Bytes)
    requires AllDigits(whole) && AllDigits(fraction) && |fraction| <= PRECISION
    ensures AllDigits(Filled(whole, fraction)) && Filled(whole, fraction) != []
  {
  }

  lemma CombinedDigits(sign: Bytes, whole: Bytes, fraction: Bytes)
    requires |fraction| <= PRECISION
    ensures sign + whole + fraction + Zeros(PRECISION - |fraction|) == sign + Filled(whole, fraction)
  {
  }

  ghost function Limited(raw: int): ParseResult {
    if Abs(raw) < TWO256 then Parsed(raw) else Failed(OutOfRange)
  }

  lemma ParseNumeral(m: Numeral)
    requires m.WellFormed()
    ensures AllDigits(Filled(m.whole, m.fraction))
    ensures ParseUnsigned(m.Unsigned()) == Limited(WithSign(m.sign, Number(Filled(m.whole, m.fraction))))
  {
    hide Number, Split, AllDigits, Filled, Numeral.Unsigned;
    NumeralSplit(m);
    NumeralStart(m);
    FilledDigits(m.whole, m.fraction);
    CombinedDigits(m.sign, m.whole, m.fraction);
    SetStringSigned(m.sign, Filled(m.whole, m.fraction));
  }

  /** The denoted decimal is the integer that is read, with both signs. */
  lemma RawIsFilled(m: Numeral)
    requires m.WellFormed()
    ensures AllDigits(Filled(m.whole, m.fraction))
    ensures var n := WithSign(m.sign, Number(Filled(m.whole, m.fraction)));
      m.Raw() == if m.neg then -n else n
  {
    hide Number, Pow10;
    FilledNumber(m.whole, m.fraction);
  }

  lemma ParseText(m: Numeral)
    requires m.WellFormed()
    ensures var r := ParseUnsigned(m.Unsigned());
      NewDecFromStr(m.Text()) == if m.neg && r.Parsed? then Parsed(-r.raw) else r
  {
    hide ParseUnsigned;
    NumeralStart(m);
    if m.neg {
      assert m.Text()[1..] == m.Unsigned();
    } else {
      assert m.Text() == m.Unsigned();
    }
  }

  /** A numeral denotes its digits scaled to 18 decimals, and is refused exactly when that is out of range. */
  lemma ParseMeaning(m: Numeral)
    requires m.WellFormed()
    ensures NewDecFromStr(m.Text()) == Limited(m.Raw())
  {
    hide Number, ParseUnsigned, NewDecFromStr, Filled, Numeral.Raw, Numeral.Text, Numeral.Unsigned;
    ParseNumeral(m);
    ParseText(m);
    RawIsFilled(m);
  }

  /** The part in front of the point, without the sign. */
  lemma NumeralParts(head: Bytes, decimals: Bytes) returns (sign: Bytes, whole: Bytes)
    requires head != [] && |decimals| <= PRECISION
    requires SetString(head + decimals + Zeros(PRECISION - |decimals|)).Some?
    ensures IsSign(sign) && head == sign + whole && AllDigits(whole) && AllDigits(decimals)
  {
    hide SetString;
    var combined := head + decimals + Zeros(PRECISION - |decimals|);
    sign := SetStringShape(combined);
    assert head[..|sign|] == combined[..|sign|] == sign;
    whole := head[|sign|..];
    assert combined[|sign|..] == whole + decimals + Zeros(PRECISION - |decimals|);
    assert forall i :: 0 <= i < |whole| ==> combined[|sign|..][i] == whole[i];
    assert forall i :: 0 <= i < |decimals| ==> combined[|sign|..][|whole| + i] == decimals[i];
  }

  lemma UnsignedIsNumeral(rest: Bytes, neg: bool) returns (m: Numeral)
    requires ParseUnsigned(rest).Parsed? || ParseUnsigned(rest) == Failed(OutOfRange)
    requires neg || rest == [] || rest[0] != MINUS
    ensures m.WellFormed() && m.neg == neg && m.Unsigned() == rest
  {
    hide Split, SetString;
    SplitShape(rest);
    var strs := Split(rest);
    var decimals := if |strs| == 2 then strs[1] else [];
    var sign, whole := NumeralParts(strs[0], decimals);
    m := Numeral(neg, sign, whole, |strs| == 2, decimals);
    assert m.Unsigned() == rest;
  }

  /** Exactly the numerals in range are parsed. */
  lemma ParsesNumerals(str: Bytes)
    ensures NewDecFromStr(str).Parsed? <==>
              exists m: Numeral :: m.WellFormed() && m.Text() == str && Abs(m.Raw()) < TWO256
  {
    hide ParseUnsigned;
    if NewDecFromStr(str).Parsed? {
      var neg := str[0] == MINUS;
      var m := UnsignedIsNumeral(if neg then str[1..] else str, neg);
      assert m.Text() == str;
      ParseMeaning(m);
    }
    forall m: Numeral | m.WellFormed() && m.Text() == str && Abs(m.Raw()) < TWO256 ensures NewDecFromStr(str).Parsed? {
      ParseMeaning(m);
    }
  }

  lemma WholeNumeral(neg: bool, sign: Bytes, ds: Bytes)
    requires Numeral(neg, sign, ds, false, []).WellFormed()
    ensures var m := Numeral(neg, sign, ds, false, []);
      var n := WithSign(sign, Number(ds) * Pow10(PRECISION));
      NewDecFromStr(m.Text()) == Limited(if neg then -n else n)
  {
    hide Pow10, NewDecFromStr;
    var m := Numeral(neg, sign, ds, false, []);
    ParseMeaning(m);
    assert Pow10(0) == 1 by {
      Pow10Zero();
    }
  }

  lemma Pow10Zero()
    ensures Pow10(0) == 1
  {
  }

  /** A plus sign alone is read as zero. */
  lemma PlusIsZero()
    ensures NewDecFromStr([PLUS]) == Parsed(0)
  {
    hide Pow10, NewDecFromStr;
    WholeNumeral(false, [PLUS], []);
    assert Numeral(false, [PLUS], [], false, []).Text() == [PLUS];
  }

  /** Two minus signs cancel. */
  lemma MinusMinus(ds: Bytes)
    requires AllDigits(ds) && ds != []
    ensures NewDecFromStr([MINUS, MINUS] + ds) == Limited(Number(ds) * Pow10(PRECISION))
  {
    hide Pow10, NewDecFromStr, Number;
    WholeNumeral(true, [MINUS], ds);
    assert Numeral(true, [MINUS], ds, false, []).Text() == [MINUS, MINUS] + ds;
  }

  lemma {:induction false} Pow10Add(a: nat, b: nat)
    ensures Pow10(a + b) == Pow10(a) * Pow10(b)
  {
    if a > 0 {
      Pow10Add(a - 1, b);
      ShiftDigits(Pow10(b), Pow10(a - 1), 0, 0);
    }
  }

  lemma Pow10Precision()
    ensures Pow10(PRECISION) == ONE && Pow10(2 * PRECISION) == ONE * ONE
  {
    assert Pow10(3) == 10 * Pow10(2) == 1000;
    Pow10Add(3, 3);
    Pow10Add(6, 3);
    Pow10Add(9, 9);
    Pow10Add(18, 18);
  }

  lemma LeadingZeros(n: nat, ds: Bytes)
    requires AllDigits(ds)
    ensures AllDigits(Zeros(n) + ds) && Number(Zeros(n) + ds) == Number(ds)
  {
    NumberOfZeros(n);
    NumberConcat(Zeros(n), ds);
  }

  /** The printed text is a whole part, a point and 18 decimals that together denote the number. */
  lemma PrintedParts(ds: Bytes) returns (whole: Bytes, fraction: Bytes)
    requires AllDigits(ds) && ds != []
    ensures AllDigits(whole) && AllDigits(fraction) && whole != [] && |fraction| == PRECISION
    ensures Unsigned(ds) == whole + [DOT] + fraction
    ensures AllDigits(Filled(whole, fraction)) && Number(Filled(whole, fraction)) == Number(ds)
  {
    hide Number;
    if |ds| <= PRECISION {
      whole, fraction := [ZERO], Zeros(PRECISION - |ds|) + ds;
      PrintedBelowOne(ds);
    } else {
      whole, fraction := ds[..|ds| - PRECISION], ds[|ds| - PRECISION..];
      PrintedFromOne(ds);
    }
  }

  lemma PrintedBelowOne(ds: Bytes)
    requires AllDigits(ds) && |ds| <= PRECISION
    ensures var fraction := Zeros(PRECISION - |ds|) + ds;
      && AllDigits(fraction) && Unsigned(ds) == [ZERO] + [DOT] + fraction
      && AllDigits(Filled([ZERO], fraction)) && Number(Filled([ZERO], fraction)) == Number(ds)
  {
    hide Number;
    var n := PRECISION - |ds|;
    LeadingZeros(n, ds);
    LeadingZeros(n + 1, ds);
    assert Filled([ZERO], Zeros(n) + ds) == Zeros(n + 1) + ds;
    assert [ZERO, DOT] + Zeros(n) + ds == [ZERO] + [DOT] + (Zeros(n) + ds);
  }

  lemma PrintedFromOne(ds: Bytes)
    requires AllDigits(ds) && |ds| > PRECISION
    ensures var whole, fraction := ds[..|ds| - PRECISION], ds[|ds| - PRECISION..];
      Unsigned(ds) == whole + [DOT] + fraction && Filled(whole, fraction) == ds
  {
    hide Number;
  }

  /** Parsing what `String` printed gives the decimal back exactly when it fits 256 bits, and otherwise
      reports that it is out of range. */
  lemma ParsePrinted(raw: int)
    ensures NewDecFromStr(DecString(raw)) == if Abs(raw) < TWO256 then Parsed(raw) else Failed(OutOfRange)
  {
    hide Number, NewDecFromStr, Filled, Digits, Unsigned, Numeral.Raw;
    NumberOfDigits(Abs(raw));
    var whole, fraction := PrintedParts(Digits(Abs(raw)));
    var m := Numeral(raw < 0, [], whole, true, fraction);
    assert m.Unsigned() == whole + [DOT] + fraction;
    RawIsFilled(m);
    ParseMeaning(m);
  }

  // ---------------------------------------------------------------- SortableDecBytes

  const MAX_SORTABLE: int := ONE * ONE

  /** The largest sortable decimal is defined as one divided by the smallest decimal. */
  lemma MaxSortableIsReciprocal()
    ensures QuoRounded(ONE, 1) == Value(MAX_SORTABLE)
  {
    RoundedExact(ONE * ONE);
  }

  /** `fmt.Sprintf("%037s", s)` pads with zeros on the left. */
  function LeftPad(s: Bytes, width: nat): Bytes {
    if |s| < width then Zeros(width - |s|) + s else s
  }

  function SortableDecBytes(raw: int): Outcome<Bytes> {
    if Abs(raw) > MAX_SORTABLE then Panic
    else if raw == MAX_SORTABLE then Value([109, 97, 120])
    else if raw == -MAX_SORTABLE then Value([MINUS, MINUS])
    else if raw < 0 then Value([MINUS] + LeftPad(DecString(Abs(raw)), PRECISION * 2 + 1))
    else Value(LeftPad(DecString(raw), PRECISION * 2 + 1))
  }

  /** Exactly `w` digits of `n`. */
  function Fixed(n: nat, w: nat): (s: Bytes)
    ensures |s| == w && AllDigits(s)
  {
    if w == 0 then [] else Fixed(n / 10, w - 1) + [ZERO + n % 10]
  }

  lemma {:induction false} FixedOrder(n: nat, m: nat, w: nat)
    requires n < m < Pow10(w)
    ensures Less(Fixed(n, w), Fixed(m, w))
  {
    if n / 10 < m / 10 {
      FixedOrder(n / 10, m / 10, w - 1);
      LessByPrefix(Fixed(n / 10, w - 1), Fixed(m / 10, w - 1), [ZERO + n % 10], [ZERO + m % 10]);
    } else {
      LessAfterPrefix(Fixed(n / 10, w - 1), [ZERO + n % 10], [ZERO + m % 10]);
    }
  }

  lemma {:induction false} FixedIsPadded(n: nat, w: nat)
    requires w >= 1 && n < Pow10(w)
    ensures |Digits(n)| <= w && Fixed(n, w) == Zeros(w - |Digits(n)|) + Digits(n)
    decreases w
  {
    if n < 10 {
      FixedZero(w - 1);
      assert n / 10 == 0;
    } else {
      FixedIsPadded(n / 10, w - 1);
    }
  }

  lemma {:induction false} FixedZero(w: nat)
    ensures Fixed(0, w) == Zeros(w)
  {
    if w > 0 {
      FixedZero(w - 1);
    }
  }

  function Pointed(s: Bytes): Bytes
    requires |s| == 2 * PRECISION
  {
    s[..PRECISION] + ([DOT] + s[PRECISION..])
  }

  lemma PadFraction(ds: Bytes, f: Bytes)
    requires |ds| <= PRECISION && f == Zeros(2 * PRECISION - |ds|) + ds
    ensures LeftPad(Unsigned(ds), PRECISION * 2 + 1) == Pointed(f)
  {
    var n := PRECISION - |ds|;
    assert f[PRECISION..] == Zeros(n) + ds;
    assert f[..PRECISION] == Zeros(PRECISION - 1) + [ZERO];
    Regroup(Zeros(PRECISION - 1), Zeros(n), ds);
  }

  lemma Regroup(z: Bytes, m: Bytes, ds: Bytes)
    ensures z + ([ZERO, DOT] + m + ds) == z + [ZERO] + ([DOT] + (m + ds))
  {
  }

  lemma PadWhole(ds: Bytes, f: Bytes)
    requires PRECISION < |ds| <= 2 * PRECISION && f == Zeros(2 * PRECISION - |ds|) + ds
    ensures LeftPad(Unsigned(ds), PRECISION * 2 + 1) == Pointed(f)
  {
    var k := |ds| - PRECISION;
    assert f[PRECISION..] == ds[k..];
    assert f[..PRECISION] == Zeros(PRECISION - k) + ds[..k];
    assert |ds| == 2 * PRECISION ==> Zeros(0) + ds[..k] == ds[..k];
  }

  /** The padded text is 18 digits, a point and 18 digits. */
  lemma PaddedText(n: nat)
    requires n < MAX_SORTABLE
    ensures LeftPad(DecString(n), PRECISION * 2 + 1) == Pointed(Fixed(n, 2 * PRECISION))
  {
    Pow10Precision();
    FixedIsPadded(n, 2 * PRECISION);
    assert DecString(n) == Unsigned(Digits(n));
    if |Digits(n)| <= PRECISION {
      PadFraction(Digits(n), Fixed(n, 2 * PRECISION));
    } else {
      PadWhole(Digits(n), Fixed(n, 2 * PRECISION));
    }
  }

  lemma PointedOrder(s: Bytes, t: Bytes)
    requires |s| == |t| == 2 * PRECISION
    requires Less(s, t)
    ensures Less(Pointed(s), Pointed(t))
  {
    var p, q := s[..PRECISION], t[..PRECISION];
    assert s == p + s[PRECISION..] && t == q + t[PRECISION..];
    Trichotomy(p, q);
    if p == q {
      LessAfterPrefix(p, s[PRECISION..], t[PRECISION..]);
      LessAfterPrefix([DOT], s[PRECISION..], t[PRECISION..]);
      LessAfterPrefix(p, [DOT] + s[PRECISION..], [DOT] + t[PRECISION..]);
    } else if Less(q, p) {
      LessByPrefix(q, p, t[PRECISION..], s[PRECISION..]);
      LessAsymmetric(t, s);
    } else {
      LessByPrefix(p, q, [DOT] + s[PRECISION..], [DOT] + t[PRECISION..]);
    }
  }

  lemma PaddedOrder(n: nat, m: nat)
    requires n < m < MAX_SORTABLE
    ensures Less(LeftPad(DecString(n), PRECISION * 2 + 1), LeftPad(DecString(m), PRECISION * 2 + 1))
  {
    PaddedText(n);
    PaddedText(m);
    Pow10Precision();
    FixedOrder(n, m, 36);
    PointedOrder(Fixed(n, 36), Fixed(m, 36));
  }

  lemma PaddedStart(n: nat)
    requires n < MAX_SORTABLE
    ensures LeftPad(DecString(n), PRECISION * 2 + 1) != [] && IsDigit(LeftPad(DecString(n), PRECISION * 2 + 1)[0])
  {
    PaddedText(n);
  }

  /** The byte order follows the numeric order whenever the larger value is not negative, and for the
      least value. Two other negative values come out in reverse. */
  lemma SortableOrder(a: int, b: int)
    requires -MAX_SORTABLE <= a < b <= MAX_SORTABLE
    ensures SortableDecBytes(a).Value? && SortableDecBytes(b).Value?
    ensures Less(SortableDecBytes(a).value, SortableDecBytes(b).value) <==> b >= 0 || a == -MAX_SORTABLE
    ensures b < 0 && a != -MAX_SORTABLE ==> Less(SortableDecBytes(b).value, SortableDecBytes(a).value)
  {
    var s, t := SortableDecBytes(a).value, SortableDecBytes(b).value;
    if a > -MAX_SORTABLE { PaddedStart(Abs(a)); }
    if b < MAX_SORTABLE { PaddedStart(Abs(b)); }
    if a >= 0 {
      if b < MAX_SORTABLE { PaddedOrder(a, b); }
    } else if b < 0 && a > -MAX_SORTABLE {
      PaddedOrder(-b, -a);
      LessAfterPrefix([MINUS], LeftPad(DecString(-b), PRECISION * 2 + 1), LeftPad(DecString(-a), PRECISION * 2 + 1));
      LessAsymmetric(t, s);
    } else if b < 0 {
      LessAfterPrefix([MINUS], [MINUS], LeftPad(DecString(-b), PRECISION * 2 + 1));
      assert s == [MINUS] + [MINUS];
    }
  }
}
