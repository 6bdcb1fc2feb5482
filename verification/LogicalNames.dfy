/** Logical names written as six dotted decimal numbers. */
module LogicalNames {
  import opened Octets
  import opened Results
  import Cosem

  // ---------- splitting ----------

  /** The position of the first dot, or the end. */
  function FirstDot(s: string): (k: nat)
    ensures k <= |s| && forall i :: 0 <= i < k ==> s[i] != '.'
    ensures k < |s| ==> s[k] == '.'
  {
    if s == [] || s[0] == '.' then 0 else 1 + FirstDot(s[1..])
  }

  /** The tokens `getline` delivers: a dot ends a token, and nothing after the last dot is no token. */
  function Split(s: string): seq<string>
    decreases |s|
  {
    if s == [] then []
    else
      var k := FirstDot(s);
      if k == |s| then [s] else [s[..k]] + Split(s[k + 1..])
  }

  // ---------- numbers ----------

  predicate IsDigit(c: char) {
    '0' <= c <= '9'
  }

  predicate IsSpace(c: char) {
    c == ' ' || 9 as char <= c <= 13 as char
  }

  function DigitsFrom(s: string, value: nat): nat
    decreases s
  {
    if s == [] || !IsDigit(s[0]) then value
    else DigitsFrom(s[1..], value * 10 + (s[0] as int - '0' as int))
  }

  function SkipSpace(s: string): string {
    if s != [] && IsSpace(s[0]) then SkipSpace(s[1..]) else s
  }

  /** `atoi`: blanks, a sign, then digits up to the first other character. */
  function Atoi(s: string): int {
    var t := SkipSpace(s);
    if t != [] && t[0] == '-' then (-1) * DigitsFrom(t[1..], 0)
    else if t != [] && t[0] == '+' then DigitsFrom(t[1..], 0)
    else DigitsFrom(t, 0)
  }

  /** `static_cast<uint8_t>(atoi(token))` */
  function TokenOctet(token: string): byte {
    Oct(Atoi(token) % 256)
  }

  function TokenOctets(tokens: seq<string>): (r: bytes)
    ensures |r| == |tokens|
  {
    if tokens == [] then [] else TokenOctets(tokens[..|tokens| - 1]) + [TokenOctet(tokens[|tokens| - 1])]
  }

  function Parse(s: string): Result<Cosem.LogicalName> {
    var octets := TokenOctets(Split(s));
    if |octets| == 6 then Ok(octets) else Err(RuntimeError)
  }

  method FromString(s: string) returns (r: Result<Cosem.LogicalName>)
    ensures r == Parse(s)
  {
    var tokens: bytes := [];
    var rest := s;
    ghost var done: seq<string> := [];
    while rest != []
      invariant done + Split(rest) == Split(s)
      invariant tokens == TokenOctets(done)
      decreases |rest|
    {
      var token, tail := GetLine(rest);
      assert Split(rest) == [token] + Split(tail);
      assert (done + [token])[..|done|] == done;
      assert done + ([token] + Split(tail)) == (done + [token]) + Split(tail);
      tokens := tokens + [TokenOctet(token)];
      done := done + [token];
      rest := tail;
    }
    assert done == Split(s);
    if |tokens| != 6 {
      return Err(RuntimeError);
    }
    return Ok(tokens);
  }

  /** One token of a stream that is not at its end; the dot behind it is consumed. */
  method GetLine(s: string) returns (token: string, rest: string)
    requires s != []
    ensures |rest| < |s|
    ensures Split(s) == [token] + Split(rest)
  {
    hide Split, FirstDot;
    token, rest := [], s;
    while rest != [] && rest[0] != '.'
      invariant token + rest == s
      invariant |token| + FirstDot(rest) == FirstDot(s)
      decreases |rest|
    {
      DotLater(rest);
      Shift(token, rest);
      token := token + [rest[0]];
      rest := rest[1..];
    }
    DotHere(rest);
    TokenTaken(token, rest);
    if rest != [] {
      rest := rest[1..];
    }
  }

  lemma DotLater(s: string)
    requires s != [] && s[0] != '.'
    ensures FirstDot(s) == 1 + FirstDot(s[1..])
  {}

  lemma DotHere(s: string)
    requires s == [] || s[0] == '.'
    ensures FirstDot(s) == 0
  {}

  lemma Shift(a: string, b: string)
    requires b != []
    ensures (a + [b[0]]) + b[1..] == a + b
  {}

  lemma TokenTaken(token: string, rest: string)
    requires token + rest != [] && FirstDot(token + rest) == |token|
    ensures Split(token + rest) == [token] + Split(if rest == [] then [] else rest[1..])
  {
    var s := token + rest;
    SplitAt(s);
    hide Split, FirstDot;
    assert s[..|token|] == token && (rest != [] ==> s[|token| + 1..] == rest[1..]);
  }

  lemma SplitAt(s: string)
    requires s != []
    ensures var k := FirstDot(s); Split(s) == [s[..k]] + Split(if k == |s| then [] else s[k + 1..])
  {
    assert s[..|s|] == s;
  }

  method FromList(list: bytes) returns (r: Result<Cosem.LogicalName>)
    ensures r == if |list| == 6 then Ok(list) else Err(RuntimeError)
  {
    if |list| != 6 {
      return Err(RuntimeError);
    }
    return Ok(list);
  }

  // ---------- joining and splitting ----------

  function Join(tokens: seq<string>): string {
    if tokens == [] then []
    else if |tokens| == 1 then tokens[0]
    else tokens[0] + ['.'] + Join(tokens[1..])
  }

  predicate DotFree(s: string) {
    forall i :: 0 <= i < |s| ==> s[i] != '.'
  }

  lemma FirstDotOf(token: string, rest: string)
    requires DotFree(token) && (rest == [] || rest[0] == '.')
    ensures FirstDot(token + rest) == |token|
  {
    var s := token + rest;
    assert forall i :: 0 <= i < |token| ==> s[i] == token[i];
    assert rest != [] ==> s[|token|] == rest[0];
  }

  lemma SplitFirst(token: string, rest: string)
    requires DotFree(token)
    ensures Split(token + ['.'] + rest) == [token] + Split(rest)
  {
    var s := token + ['.'] + rest;
    assert s == token + (['.'] + rest);
    FirstDotOf(token, ['.'] + rest);
    assert s[..|token|] == token && s[|token| + 1..] == rest;
  }

  /** Splitting undoes joining dot-free tokens, the last of which is not empty ... */
  lemma {:induction false} SplitJoin(tokens: seq<string>)
    requires tokens != [] && (forall t <- tokens :: DotFree(t)) && tokens[|tokens| - 1] != []
    ensures Split(Join(tokens)) == tokens
    decreases |tokens|
  {
    assert DotFree(tokens[0]) by { assert tokens[0] in tokens; }
    hide DotFree;
    if |tokens| == 1 {
      FirstDotOf(tokens[0], []);
      assert tokens[0] + [] == tokens[0];
    } else {
      SplitFirst(tokens[0], Join(tokens[1..]));
      SplitJoin(tokens[1..]);
    }
  }

  /** ... and a dot behind the last token makes no difference, not even to an empty one. */
  lemma {:induction false} SplitJoinTrailingDot(tokens: seq<string>)
    requires tokens != [] && forall t <- tokens :: DotFree(t)
    ensures Split(Join(tokens) + ['.']) == tokens
    decreases |tokens|
  {
    assert DotFree(tokens[0]) by { assert tokens[0] in tokens; }
    hide DotFree;
    if |tokens| == 1 {
      SplitFirst(tokens[0], []);
      assert tokens[0] + ['.'] + [] == Join(tokens) + ['.'];
    } else {
      DotBehind(tokens[0], Join(tokens[1..]));
      hide Split;
      SplitFirst(tokens[0], Join(tokens[1..]) + ['.']);
      SplitJoinTrailingDot(tokens[1..]);
    }
  }

  lemma DotBehind(a: string, b: string)
    ensures (a + ['.'] + b) + ['.'] == a + ['.'] + (b + ['.'])
  {}

  function Dots(s: string): nat {
    if s == [] then 0 else (if s[0] == '.' then 1 else 0) + Dots(s[1..])
  }

  /** The number of tokens, from the text alone. */
  function TokenCount(s: string): nat {
    Dots(s) + (if s != [] && s[|s| - 1] != '.' then 1 else 0)
  }

  lemma {:induction false} DotsAppend(s: string, t: string)
    ensures Dots(s + t) == Dots(s) + Dots(t)
    decreases s
  {
    if s == [] {
      assert s + t == t;
    } else {
      assert (s + t)[1..] == s[1..] + t;
      DotsAppend(s[1..], t);
    }
  }

  lemma {:induction false} NoDots(s: string)
    requires DotFree(s)
    ensures Dots(s) == 0
    decreases s
  {
    if s != [] {
      assert DotFree(s[1..]);
      NoDots(s[1..]);
    }
  }

  lemma CountStep(token: string, rest: string)
    requires DotFree(token)
    ensures TokenCount(token + ['.'] + rest) == 1 + TokenCount(rest)
  {
    var s := token + ['.'] + rest;
    DotsAppend(token + ['.'], rest);
    DotsAppend(token, ['.']);
    NoDots(token);
    assert Dots(['.']) == 1;
    assert s[|s| - 1] == if rest == [] then '.' else rest[|rest| - 1];
    hide Dots;
  }

  lemma {:induction false} SplitCount(s: string)
    ensures |Split(s)| == TokenCount(s)
    decreases |s|
  {
    hide TokenCount;
    if s == [] {
      NoTokens();
    } else {
      var k := FirstDot(s);
      if k == |s| {
        NoDots(s);
        OneToken(s);
      } else {
        var rest := s[k + 1..];
        assert s == s[..k] + ['.'] + rest;
        CountStep(s[..k], rest);
        SplitCount(rest);
      }
    }
  }

  lemma NoTokens()
    ensures TokenCount([]) == 0
  {}

  lemma OneToken(s: string)
    requires s != [] && DotFree(s)
    ensures TokenCount(s) == 1
  {
    NoDots(s);
  }

  /** A text is accepted iff it has six tokens. */
  lemma AcceptedIffSixTokens(s: string)
    ensures Parse(s).Ok? <==> TokenCount(s) == 6
    ensures Parse(s).Err? ==> Parse(s) == Err(RuntimeError)
  {
    hide Split, TokenCount;
    SplitCount(s);
  }

  // ---------- printing and parsing ----------

  function Digit(n: nat): char
    requires n < 10
  {
    ('0' as int + n) as char
  }

  function Decimal(n: nat): (s: string)
    ensures s != []
  {
    if n < 10 then [Digit(n)] else Decimal(n / 10) + [Digit(n % 10)]
  }

  lemma {:induction false} DecimalDigits(n: nat)
    ensures forall i :: 0 <= i < |Decimal(n)| ==> IsDigit(Decimal(n)[i])
  {
    if 10 <= n {
      DecimalDigits(n / 10);
    }
  }

  lemma {:induction false} DigitsAppend(s: string, c: char, value: nat)
    requires (forall i :: 0 <= i < |s| ==> IsDigit(s[i])) && IsDigit(c)
    ensures DigitsFrom(s + [c], value) == DigitsFrom(s, value) * 10 + (c as int - '0' as int)
    decreases s
  {
    if s == [] {
      assert s + [c] == [c];
      assert [c][1..] == [];
    } else {
      assert (s + [c])[1..] == s[1..] + [c];
      DigitsAppend(s[1..], c, value * 10 + (s[0] as int - '0' as int));
    }
  }

  lemma {:induction false} DigitsOfDecimal(n: nat)
    ensures DigitsFrom(Decimal(n), 0) == n
  {
    if n < 10 {
      assert [Digit(n)][1..] == [];
    } else {
      DecimalDigits(n / 10);
      DigitsOfDecimal(n / 10);
      DigitsAppend(Decimal(n / 10), Digit(n % 10), 0);
    }
  }

  /** Reading a printed number gives the number. */
  lemma AtoiDecimal(n: nat)
    ensures Atoi(Decimal(n)) == n
  {
    DecimalDigits(n);
    DigitsOfDecimal(n);
    assert IsDigit(Decimal(n)[0]);
    hide Decimal, DigitsFrom;
  }

  function Numbers(octets: bytes): (r: seq<string>)
    ensures |r| == |octets|
  {
    if octets == [] then [] else Numbers(octets[..|octets| - 1]) + [Decimal(Val(octets[|octets| - 1]))]
  }

  function Print(octets: bytes): string {
    Join(Numbers(octets))
  }

  lemma {:induction false} NumbersForm(octets: bytes)
    ensures forall t <- Numbers(octets) :: DotFree(t) && t != []
    ensures TokenOctets(Numbers(octets)) == octets
    decreases |octets|
  {
    if octets != [] {
      hide Val, Oct, Decimal, Atoi;
      var last := octets[|octets| - 1];
      NumbersForm(octets[..|octets| - 1]);
      NumberForm(last);
      assert Numbers(octets)[..|octets| - 1] == Numbers(octets[..|octets| - 1]);
      hide DotFree, TokenOctet;
    }
  }

  lemma NumberForm(b: byte)
    ensures DotFree(Decimal(Val(b))) && TokenOctet(Decimal(Val(b))) == b
  {
    hide Val, Oct, Decimal, Atoi;
    DecimalDigits(Val(b));
    AtoiDecimal(Val(b));
    OctVal(b);
    assert Val(b) % 256 == Val(b);
  }

  /** Every six octets survive printing and parsing, with or without a dot at the end. */
  lemma PrintParse(octets: bytes)
    requires |octets| == 6
    ensures Parse(Print(octets)) == Ok(octets) && Parse(Print(octets) + ['.']) == Ok(octets)
  {
    var tokens := Numbers(octets);
    NumbersForm(octets);
    assert tokens[5] in tokens;
    SplitJoin(tokens);
    SplitJoinTrailingDot(tokens);
    hide Split, TokenOctets, Numbers, Join;
  }

  /** Tokens are read modulo 256: numbers that differ by a multiple of 256 name the same object. */
  lemma ReadModulo(n: nat, m: nat)
    ensures TokenOctet(Decimal(n)) == TokenOctet(Decimal(m)) <==> n % 256 == m % 256
  {
    hide Decimal, Oct, Val, Atoi;
    AtoiDecimal(n);
    AtoiDecimal(m);
    var a, b := n % 256, m % 256;
    ValOct(a);
    ValOct(b);
    assert a % 256 == a && b % 256 == b;
  }

  // ---------- every token ----------

  /** The blanks that `atoi` skips. */
  predicate Blank(c: char) {
    c in {' ', '\t', '\n', '\r', 11 as char, 12 as char}
  }

  predicate Blanks(s: string) {
    forall i :: 0 <= i < |s| ==> Blank(s[i])
  }

  predicate Digits(s: string) {
    forall i :: 0 <= i < |s| ==> '0' <= s[i] <= '9'
  }

  /** The number that digits stand for, zeros in front or not. */
  function Number(s: string): nat
    requires Digits(s)
  {
    if s == [] then 0 else Number(s[..|s| - 1]) * 10 + (s[|s| - 1] as int - '0' as int)
  }

  /** How a token divides into blanks, a sign, digits and other characters. */
  datatype Token = Token(blanks: string, sign: string, digits: string, rest: string)

  function Text(t: Token): string {
    t.blanks + (t.sign + (t.digits + t.rest))
  }

  /** Every part is as long as it can be: what follows does not belong to it. */
  predicate Divided(t: Token) {
    && Blanks(t.blanks) && t.sign in {"", "-", "+"} && Digits(t.digits)
    && (t.rest != [] ==> !('0' <= t.rest[0] <= '9'))
    && (t.sign == "" && t.digits == "" && t.rest != [] ==> !Blank(t.rest[0]) && t.rest[0] !in {'-', '+'})
  }

  lemma {:induction false} DigitsFromPrefix(digits: string, rest: string)
    requires Digits(digits) && (rest != [] ==> !('0' <= rest[0] <= '9'))
    ensures DigitsFrom(digits + rest, 0) == Number(digits)
    decreases |digits|
  {
    if digits == [] {
      assert digits + rest == rest;
    } else {
      DigitsThen(digits, rest, 0);
      DigitsOf(digits);
    }
  }

  lemma {:induction false} DigitsThen(digits: string, rest: string, value: nat)
    requires Digits(digits) && (rest != [] ==> !('0' <= rest[0] <= '9'))
    ensures DigitsFrom(digits + rest, value) == DigitsFrom(digits, value)
    decreases digits
  {
    if digits == [] {
      assert digits + rest == rest;
    } else {
      assert (digits + rest)[1..] == digits[1..] + rest;
      DigitsThen(digits[1..], rest, value * 10 + (digits[0] as int - '0' as int));
    }
  }

  lemma {:induction false} DigitsOf(digits: string)
    requires Digits(digits)
    ensures DigitsFrom(digits, 0) == Number(digits)
    decreases |digits|
  {
    if digits != [] {
      var front := digits[..|digits| - 1];
      DigitsOf(front);
      assert digits == front + [digits[|digits| - 1]];
      DigitsAppend(front, digits[|digits| - 1], 0);
    }
  }

  lemma {:induction false} SpaceSkipped(blanks: string, rest: string)
    requires Blanks(blanks) && (rest != [] ==> !Blank(rest[0]))
    ensures SkipSpace(blanks + rest) == rest
    decreases blanks
  {
    if blanks == [] {
      assert blanks + rest == rest;
    } else {
      assert (blanks + rest)[1..] == blanks[1..] + rest;
      SpaceSkipped(blanks[1..], rest);
    }
  }

  /** The number that a token stands for. */
  function Meant(t: Token): int
    requires Divided(t)
  {
    if t.sign == "-" then 0 - Number(t.digits) else Number(t.digits)
  }

  /** A token reads as its digits say, negative behind a minus; what surrounds them is ignored, and no digits say 0. */
  lemma AtoiToken(t: Token)
    requires Divided(t)
    ensures Atoi(Text(t)) == Meant(t)
  {
    hide DigitsFrom, SkipSpace, Number;
    var number := t.digits + t.rest;
    var tail := t.sign + number;
    SpaceSkipped(t.blanks, tail);
    DigitsFromPrefix(t.digits, t.rest);
    if t.sign == "" {
      assert tail == number;
    } else {
      assert tail[1..] == number;
    }
  }

  function BlankCount(s: string): (k: nat)
    ensures k <= |s| && Blanks(s[..k]) && (k < |s| ==> !Blank(s[k]))
  {
    if s == [] || !Blank(s[0]) then 0
    else
      var k := 1 + BlankCount(s[1..]);
      assert s[..k] == [s[0]] + s[1..][..k - 1];
      k
  }

  function DigitCount(s: string): (k: nat)
    ensures k <= |s| && Digits(s[..k]) && (k < |s| ==> !('0' <= s[k] <= '9'))
  {
    if s == [] || !('0' <= s[0] <= '9') then 0
    else
      var k := 1 + DigitCount(s[1..]);
      assert s[..k] == [s[0]] + s[1..][..k - 1];
      k
  }

  function SignCount(s: string): nat {
    if s != [] && s[0] in {'-', '+'} then 1 else 0
  }

  function Divide(s: string): Token {
    var u := s[BlankCount(s)..];
    var v := u[SignCount(u)..];
    Token(s[..BlankCount(s)], u[..SignCount(u)], v[..DigitCount(v)], v[DigitCount(v)..])
  }

  /** Every text divides so. */
  lemma EveryToken(s: string)
    ensures Divided(Divide(s)) && Text(Divide(s)) == s
  {
    var u := s[BlankCount(s)..];
    var v := u[SignCount(u)..];
    var digits, rest := v[..DigitCount(v)], v[DigitCount(v)..];
    hide *;
    SignOf(u);
    DividesAt(s, BlankCount(s));
    DividesAt(v, DigitCount(v));
    DivideIs(s);
    JoinsAgain(s[..BlankCount(s)], u[..SignCount(u)], digits, rest);
    DividedFrom(s[..BlankCount(s)], u, digits, rest);
  }

  lemma DivideIs(s: string)
    ensures SignCount(s[BlankCount(s)..]) <= |s[BlankCount(s)..]|
    ensures
      var u := s[BlankCount(s)..];
      var v := u[SignCount(u)..];
      Divide(s) == Token(s[..BlankCount(s)], u[..SignCount(u)], v[..DigitCount(v)], v[DigitCount(v)..])
  {}

  lemma JoinsAgain(a: string, b: string, c: string, d: string)
    ensures Text(Token(a, b, c, d)) == a + (b + (c + d))
  {}

  lemma DividesAt(s: string, k: nat)
    requires k <= |s|
    ensures s == s[..k] + s[k..] && (k < |s| ==> s[k..] != [] && s[k..][0] == s[k])
    ensures k == |s| ==> s[k..] == []
  {}

  lemma SignOf(u: string)
    ensures SignCount(u) <= |u| && u[..SignCount(u)] in {"", "-", "+"} && u == u[..SignCount(u)] + u[SignCount(u)..]
    ensures SignCount(u) == 0 && u != [] ==> u[0] !in {'-', '+'}
    ensures SignCount(u) == 0 ==> u[SignCount(u)..] == u
  {
    if SignCount(u) == 1 {
      assert u[..1] == [u[0]];
    }
  }

  lemma DividedFrom(blanks: string, u: string, digits: string, rest: string)
    requires Blanks(blanks) && Digits(digits)
    requires SignCount(u) <= |u| && u[..SignCount(u)] in {"", "-", "+"} && u[SignCount(u)..] == digits + rest
    requires u != [] ==> !Blank(u[0])
    requires SignCount(u) == 0 && u != [] ==> u[0] !in {'-', '+'}
    requires rest != [] ==> !('0' <= rest[0] <= '9')
    ensures Divided(Token(blanks, u[..SignCount(u)], digits, rest))
  {
    hide Blank, Blanks, Digits, SignCount;
    if u[..SignCount(u)] == "" && digits == "" {
      assert SignCount(u) == 0;
      assert u == u[0..] == digits + rest == rest;
    }
  }

  /** Zeros in front of a number change nothing. */
  lemma {:induction false} LeadingZero(digits: string)
    requires Digits(digits)
    ensures Digits("0" + digits) && Number("0" + digits) == Number(digits)
    decreases |digits|
  {
    var s := "0" + digits;
    assert forall i :: 0 <= i < |digits| ==> s[i + 1] == digits[i];
    if digits != [] {
      var front := digits[..|digits| - 1];
      LeadingZero(front);
      assert s[..|s| - 1] == "0" + front;
    } else {
      assert s == "0" && s[..0] == [];
    }
  }

  /** The octet of a token: the number modulo 256, counted down from 256 behind a minus. */
  lemma TokenReads(t: Token)
    requires Divided(t)
    ensures Val(TokenOctet(Text(t))) == Meant(t) % 256
  {
    hide Atoi, Val, Oct, Meant;
    AtoiToken(t);
    ValOct(Atoi(Text(t)) % 256);
  }

  /** The number that any text stands for. */
  function Meaning(s: string): int {
    EveryToken(s);
    Meant(Divide(s))
  }

  lemma {:induction false} TokenOctetsAt(tokens: seq<string>, i: nat)
    requires i < |tokens|
    ensures TokenOctets(tokens)[i] == TokenOctet(tokens[i])
    decreases |tokens|
  {
    hide TokenOctet;
    if i < |tokens| - 1 {
      TokenOctetsAt(tokens[..|tokens| - 1], i);
    }
  }

  /** Any accepted text: each octet of the name is the number of its token modulo 256. */
  lemma NameReads(s: string)
    requires Parse(s).Ok?
    ensures |Split(s)| == 6
    ensures forall i :: 0 <= i < 6 ==> Val(Parse(s).value[i]) == Meaning(Split(s)[i]) % 256
  {
    var tokens := Split(s);
    forall i | 0 <= i < 6
      ensures Val(Parse(s).value[i]) == Meaning(tokens[i]) % 256
    {
      TokenOctetsAt(tokens, i);
      EveryToken(tokens[i]);
      TokenReads(Divide(tokens[i]));
      hide Split, TokenOctets, TokenOctet, Val, Divide, Divided, Meant, Text;
    }
  }
}
