/** A reader for the JSON texts (RFC 8259) that consist of arrays (section 5), strings (section 7),
    numbers (section 6) and the literal names (section 3), and the three names that Python's reader takes
    besides. Strings and numbers keep their text. */
module Json {
  import opened Options
  import opened Texts

  datatype Token = LBracket | RBracket | Comma | Str(text: string) | Lit(text: string)

  datatype Value = Scalar(token: Token) | Array(items: seq<Value>)

  predicate IsSpace(c: char) {
    c == ' ' || c == '\t' || c == '\n' || c == '\r'
  }

  predicate IsHex(c: char) {
    IsDigit(c) || 'a' <= c <= 'f' || 'A' <= c <= 'F'
  }

  /** The characters that may follow a backslash, besides u and four hexadecimal digits. */
  predicate IsEscape(c: char) {
    c == '"' || c == '\\' || c == '/' || c == 'b' || c == 'f' || c == 'n' || c == 'r' || c == 't'
  }

  /** The characters that can occur in a number or a literal name. */
  predicate IsLitChar(c: char) {
    IsDigit(c) || 'a' <= c <= 'z' || 'A' <= c <= 'Z' || c == '-' || c == '+' || c == '.'
  }

  /** The index of the quote that closes a string whose opening quote has been read. */
  function ClosingQuote(s: string): (r: Option<nat>)
    ensures r.Some? ==> r.value < |s| && s[r.value] == '"'
  {
    if s == "" then None
    else if s[0] == '"' then Some(0)
    else if s[0] == '\\' then
      if |s| >= 2 && IsEscape(s[1]) then Skip(2, ClosingQuote(s[2..]))
      else if |s| >= 6 && s[1] == 'u' && IsHex(s[2]) && IsHex(s[3]) && IsHex(s[4]) && IsHex(s[5])
      then Skip(6, ClosingQuote(s[6..]))
      else None
    else if s[0] < ' ' then None
    else Skip(1, ClosingQuote(s[1..]))
  }

  function Skip(k: nat, r: Option<nat>): Option<nat> {
    match r
    case None => None
    case Some(n) => Some(k + n)
  }

  lemma {:induction false} ClosingQuoteExtends(s: string, rest: string)
    requires ClosingQuote(s).Some?
    ensures ClosingQuote(s + rest) == ClosingQuote(s)
  {
    var t := s + rest;
    if s[0] == '"' {
    } else if s[0] == '\\' {
      assert t[1] == s[1];
      if IsEscape(s[1]) {
        assert t[2..] == s[2..] + rest;
        ClosingQuoteExtends(s[2..], rest);
      } else {
        assert t[6..] == s[6..] + rest;
        ClosingQuoteExtends(s[6..], rest);
      }
    } else {
      assert t[1..] == s[1..] + rest;
      ClosingQuoteExtends(s[1..], rest);
    }
  }

  /** A whole string token, with both quotes. */
  predicate IsString(t: string) {
    |t| >= 2 && t[0] == '"' && ClosingQuote(t[1..]) == Some(|t| - 2)
  }

  predicate EscapeText(c: char) {
    c in "\"\\/bfnrt"
  }

  predicate HexText(c: char) {
    c in "0123456789abcdefABCDEF"
  }

  lemma HexExact(c: char)
    ensures IsHex(c) <==> HexText(c)
  {
    var hex := "0123456789abcdefABCDEF";
    if IsHex(c) {
      var i := if IsDigit(c) then (c - '0') as int else if 'a' <= c then 10 + (c - 'a') as int else 16 + (c - 'A') as int;
      assert hex[i] == c;
    }
  }

  lemma EscapeExact(c: char)
    ensures IsEscape(c) <==> EscapeText(c)
  {
    var all := "\"\\/bfnrt";
    assert all[0] == '"' && all[1] == '\\' && all[2] == '/' && all[3] == 'b' && all[4] == 'f';
    assert all[5] == 'n' && all[6] == 'r' && all[7] == 't';
  }

  /** One character of a string in section 7 of RFC 8259, or the escape sequence for one. */
  predicate IsUnit(u: string) {
    || (|u| == 1 && u[0] >= ' ' && u[0] != '"' && u[0] != '\\')
    || (|u| == 2 && u[0] == '\\' && EscapeText(u[1]))
    || (|u| == 6 && u[0] == '\\' && u[1] == 'u' && HexText(u[2]) && HexText(u[3]) && HexText(u[4]) && HexText(u[5]))
  }

  function Glued(units: seq<string>): string {
    if units == [] then "" else units[0] + Glued(units[1..])
  }

  lemma UnitFirst(u: string, rest: string)
    requires IsUnit(u)
    ensures ClosingQuote(u + rest) == Skip(|u|, ClosingQuote(rest))
  {
    hide EscapeText, HexText, IsHex, IsEscape;
    var s := u + rest;
    assert s[0] == u[0] && s[|u|..] == rest;
    NotU();
    if |u| == 2 {
      assert s[1] == u[1];
      EscapeExact(u[1]);
    } else if |u| == 6 {
      assert s[1] == u[1] && s[2] == u[2] && s[3] == u[3] && s[4] == u[4] && s[5] == u[5];
      HexExact(u[2]);
      HexExact(u[3]);
      HexExact(u[4]);
      HexExact(u[5]);
    }
  }

  lemma NotU()
    ensures !IsEscape('u')
  {
  }

  /** The quote that closes a string comes after whole units, however they end ... */
  lemma {:induction false} QuoteAfterUnits(units: seq<string>, rest: string)
    requires (forall i :: 0 <= i < |units| ==> IsUnit(units[i])) && rest != "" && rest[0] == '"'
    ensures ClosingQuote(Glued(units) + rest) == Some(|Glued(units)|)
  {
    hide IsUnit;
    if units == [] {
      assert "" + rest == rest;
    } else {
      var more := Glued(units[1..]) + rest;
      assert Glued(units) + rest == units[0] + more;
      UnitFirst(units[0], more);
      QuoteAfterUnits(units[1..], rest);
    }
  }

  /** ... and before it there are only whole units. */
  lemma {:induction false} UnitsBeforeQuote(s: string) returns (units: seq<string>)
    requires ClosingQuote(s).Some?
    ensures (forall i :: 0 <= i < |units| ==> IsUnit(units[i])) && s[..ClosingQuote(s).value] == Glued(units)
  {
    QuoteNow(s);
    hide ClosingQuote, IsUnit;
    if s[0] == '"' {
      units := [];
    } else {
      hide Glued;
      var n := TakeUnit(s);
      var more := UnitsBeforeQuote(s[n..]);
      GlueFirst(s, n, ClosingQuote(s[n..]).value, more);
      units := [s[..n]] + more;
    }
  }

  lemma GlueFirst(s: string, n: nat, q: nat, more: seq<string>)
    requires n + q <= |s| && s[n..][..q] == Glued(more)
    ensures s[..n + q] == Glued([s[..n]] + more)
  {
    assert ([s[..n]] + more)[1..] == more;
    assert s[..n + q] == s[..n] + s[n..][..q];
  }

  lemma QuoteNow(s: string)
    requires ClosingQuote(s).Some?
    ensures s != "" && (s[0] == '"' ==> ClosingQuote(s) == Some(0))
  {
  }

  lemma TakeUnit(s: string) returns (n: nat)
    requires ClosingQuote(s).Some? && s[0] != '"'
    ensures 0 < n <= |s| && IsUnit(s[..n]) && ClosingQuote(s) == Skip(n, ClosingQuote(s[n..]))
  {
    hide EscapeText, HexText, IsHex, IsEscape;
    n := if s[0] != '\\' then 1 else if IsEscape(s[1]) then 2 else 6;
    if n == 2 {
      EscapeExact(s[1]);
    } else if n == 6 {
      HexExact(s[2]);
      HexExact(s[3]);
      HexExact(s[4]);
      HexExact(s[5]);
    }
  }

  predicate IsExponent(s: string) {
    s == "" || ((s[0] == 'e' || s[0] == 'E') &&
                var u := if |s| > 1 && (s[1] == '+' || s[1] == '-') then s[2..] else s[1..];
                u != "" && All(IsDigit, u))
  }

  predicate IsFraction(s: string) {
    if s != "" && s[0] == '.' then
      var n := Run(IsDigit, s[1..]);
      n > 0 && IsExponent(s[1..][n..])
    else IsExponent(s)
  }

  predicate IsNumber(s: string) {
    IsUnsigned(if s != "" && s[0] == '-' then s[1..] else s)
  }

  predicate IsUnsigned(u: string) {
    var n := Run(IsDigit, u);
    n > 0 && (n == 1 || u[0] != '0') && IsFraction(u[n..])
  }

  predicate IsDigits(s: string) {
    s != "" && All(IsDigit, s)
  }

  /** The parts of a number in section 6 of RFC 8259. */
  ghost predicate NumberText(s: string, sign: string, whole: string, frac: string, exp: string) {
    && s == sign + (whole + (frac + exp))
    && (sign == "" || sign == "-")
    && IsDigits(whole) && (|whole| == 1 || whole[0] != '0')
    && (frac == "" || (frac[0] == '.' && IsDigits(frac[1..])))
    && ExponentText(exp)
  }

  ghost predicate ExponentText(exp: string) {
    exp == "" || exists e, sign, digits :: ExponentParts(exp, e, sign, digits)
  }

  ghost predicate ExponentParts(exp: string, e: char, sign: string, digits: string) {
    exp == [e] + (sign + digits) && (e == 'e' || e == 'E') && (sign == "" || sign == "+" || sign == "-") && IsDigits(digits)
  }

  lemma ExponentExact(s: string)
    ensures IsExponent(s) <==> ExponentText(s)
  {
    if s != "" && IsExponent(s) {
      ExponentSplits(s);
    }
    forall e, sign, digits | ExponentParts(s, e, sign, digits)
      ensures IsExponent(s)
    {
      ExponentJoins(s, e, sign, digits);
    }
  }

  lemma ExponentSplits(s: string)
    requires s != "" && IsExponent(s)
    ensures ExponentText(s)
  {
    var signed := |s| > 1 && (s[1] == '+' || s[1] == '-');
    var sign, digits := if signed then [s[1]] else "", if signed then s[2..] else s[1..];
    hide All;
    assert s == [s[0]] + (sign + digits);
    assert ExponentParts(s, s[0], sign, digits);
  }

  lemma ExponentJoins(s: string, e: char, sign: string, digits: string)
    requires ExponentParts(s, e, sign, digits)
    ensures IsExponent(s)
  {
    assert IsDigit(digits[0]);
    hide All;
    if sign == "" {
      assert s[1..] == digits && s[1] == digits[0];
    } else {
      assert s[1] == sign[0] && s[2..] == digits;
    }
  }

  /** A number is one exactly when it has these parts. */
  lemma NumberExact(s: string)
    ensures IsNumber(s) <==> exists sign, whole, frac, exp :: NumberText(s, sign, whole, frac, exp)
  {
    hide IsExponent, ExponentText;
    if IsNumber(s) {
      NumberSplits(s);
    }
    forall sign, whole, frac, exp | NumberText(s, sign, whole, frac, exp)
      ensures IsNumber(s)
    {
      NumberJoins(s, sign, whole, frac, exp);
    }
  }

  lemma NumberSplits(s: string)
    requires IsNumber(s)
    ensures exists sign, whole, frac, exp :: NumberText(s, sign, whole, frac, exp)
  {
    hide ExponentText, IsUnsigned, IsDigits;
    var signed := s != "" && s[0] == '-';
    var sign, u := if signed then "-" else "", if signed then s[1..] else s;
    var whole, frac, exp := UnsignedSplits(u);
    assert s == sign + u;
    assert NumberText(s, sign, whole, frac, exp);
  }

  lemma UnsignedSplits(u: string) returns (whole: string, frac: string, exp: string)
    requires IsUnsigned(u)
    ensures u == whole + (frac + exp) && IsDigits(whole) && (|whole| == 1 || whole[0] != '0')
    ensures (frac == "" || (frac[0] == '.' && IsDigits(frac[1..]))) && ExponentText(exp)
  {
    LeadingDigits(u);
    hide ExponentText, IsFraction, IsDigits, Run;
    var n := Run(IsDigit, u);
    whole := u[..n];
    frac, exp := FractionSplits(u[n..]);
    assert u == whole + u[n..];
  }

  lemma FractionSplits(rest: string) returns (frac: string, exp: string)
    requires IsFraction(rest)
    ensures rest == frac + exp && (frac == "" || (frac[0] == '.' && IsDigits(frac[1..]))) && ExponentText(exp)
  {
    hide IsExponent, ExponentText, IsDigits, Run;
    if rest != "" && rest[0] == '.' {
      var n := Run(IsDigit, rest[1..]);
      LeadingDigits(rest[1..]);
      frac, exp := rest[..n + 1], rest[n + 1..];
      assert frac[1..] == rest[1..][..n] && exp == rest[1..][n..];
    } else {
      frac, exp := "", rest;
    }
    ExponentExact(exp);
  }

  lemma LeadingDigits(u: string)
    ensures var n := Run(IsDigit, u); n > 0 ==> IsDigits(u[..n])
  {
  }

  lemma NumberJoins(s: string, sign: string, whole: string, frac: string, exp: string)
    requires NumberText(s, sign, whole, frac, exp)
    ensures IsNumber(s)
  {
    ExponentExact(exp);
    ExponentStart(exp);
    hide IsExponent, ExponentText;
    var rest := frac + exp;
    var u := whole + rest;
    assert IsDigit(whole[0]) && u[0] == whole[0];
    assert (if s != "" && s[0] == '-' then s[1..] else s) == u;
    RunSplit(IsDigit, whole, rest);
    FractionJoins(frac, exp);
  }

  lemma FractionJoins(frac: string, exp: string)
    requires frac == "" || (frac[0] == '.' && IsDigits(frac[1..]))
    requires IsExponent(exp) && (exp != "" ==> exp[0] == 'e' || exp[0] == 'E')
    ensures IsFraction(frac + exp) && (frac + exp != "" ==> !IsDigit((frac + exp)[0]))
  {
    hide IsExponent;
    if frac == "" {
      assert frac + exp == exp;
    } else {
      assert (frac + exp)[1..] == frac[1..] + exp;
      RunSplit(IsDigit, frac[1..], exp);
    }
  }

  lemma ExponentStart(exp: string)
    requires ExponentText(exp)
    ensures exp != "" ==> exp[0] == 'e' || exp[0] == 'E'
  {
    if exp != "" {
      var e, sign, digits :| ExponentParts(exp, e, sign, digits);
    }
  }

  /** A whole number or literal name. */
  predicate IsLiteral(t: string) {
    && t != "" && All(IsLitChar, t)
    && (t == "true" || t == "false" || t == "null" || t == "NaN" || t == "Infinity" || t == "-Infinity" || IsNumber(t))
  }

  /** What may stand for a value that is no string and no array: a number of RFC 8259, one of its literal names, or a
      name that Python's reader takes besides. */
  lemma LiteralExact(t: string)
    ensures IsLiteral(t) <==>
      || t == "true" || t == "false" || t == "null" || t == "NaN" || t == "Infinity" || t == "-Infinity"
      || exists sign, whole, frac, exp :: NumberText(t, sign, whole, frac, exp)
  {
    NumberExact(t);
    if sign, whole, frac, exp :| NumberText(t, sign, whole, frac, exp) {
      NumberChars(t, sign, whole, frac, exp);
    }
    NameChars();
    hide IsNumber, NumberText, All;
  }

  lemma NumberChars(t: string, sign: string, whole: string, frac: string, exp: string)
    requires NumberText(t, sign, whole, frac, exp)
    ensures t != "" && All(IsLitChar, t)
  {
    if exp != "" {
      ExponentChars(exp);
    }
    hide ExponentText;
    assert All(IsLitChar, whole) && All(IsLitChar, sign);
    assert frac != "" ==> frac == [frac[0]] + frac[1..];
    assert All(IsLitChar, frac);
    AllJoins(frac, exp);
    AllJoins(whole, frac + exp);
    AllJoins(sign, whole + (frac + exp));
  }

  lemma ExponentChars(exp: string)
    requires exp != "" && ExponentText(exp)
    ensures All(IsLitChar, exp)
  {
    var e, sign, digits :| ExponentParts(exp, e, sign, digits);
    assert All(IsLitChar, [e]) && All(IsLitChar, sign) && All(IsLitChar, digits);
    AllJoins(sign, digits);
    AllJoins([e], sign + digits);
  }

  lemma AllJoins(a: string, b: string)
    requires All(IsLitChar, a) && All(IsLitChar, b)
    ensures All(IsLitChar, a + b)
  {
    hide IsLitChar;
  }

  lemma NameChars()
    ensures All(IsLitChar, "true") && All(IsLitChar, "false") && All(IsLitChar, "null")
    ensures All(IsLitChar, "NaN") && All(IsLitChar, "Infinity") && All(IsLitChar, "-Infinity")
  {
  }

  /** The first token of a text that does not start with white space, and its length. */
  function NextToken(s: string): (r: Option<(Token, nat)>)
    requires s != ""
    ensures r.Some? ==> 0 < r.value.1 <= |s|
  {
    if s[0] == '[' then Some((LBracket, 1))
    else if s[0] == ']' then Some((RBracket, 1))
    else if s[0] == ',' then Some((Comma, 1))
    else if s[0] == '"' then
      match ClosingQuote(s[1..])
      case None => None
      case Some(n) => Some((Str(s[..n + 2]), n + 2))
    else
      var n := Run(IsLitChar, s);
      if IsLiteral(s[..n]) then Some((Lit(s[..n]), n)) else None
  }

  function Lex(s: string): Option<seq<Token>> {
    if s == "" then Some([])
    else if IsSpace(s[0]) then Lex(s[1..])
    else match NextToken(s)
         case None => None
         case Some((t, n)) => Prepend([t], Lex(s[n..]))
  }

  /** Between tokens there may be the white space of RFC 8259 and nothing else. */
  lemma SpaceExact(c: char, rest: string)
    ensures c in " \t\n\r" ==> Lex([c] + rest) == Lex(rest)
    ensures c !in " \t\n\r[],\"" && !IsLitChar(c) ==> Lex([c] + rest) == None
  {
    assert ([c] + rest)[1..] == rest;
    SpaceIs(c);
    TokenStarts(c, [c] + rest);
    hide NextToken, IsSpace, IsLitChar;
  }

  lemma SpaceIs(c: char)
    ensures IsSpace(c) <==> c in " \t\n\r"
    ensures c !in " \t\n\r[],\"" ==> !IsSpace(c) && c != '[' && c != ']' && c != ',' && c != '"'
  {
    var all := " \t\n\r[],\"";
    assert all[0] == ' ' && all[1] == '\t' && all[2] == '\n' && all[3] == '\r';
    assert all[4] == '[' && all[5] == ']' && all[6] == ',' && all[7] == '"';
    assert all[..4] == " \t\n\r";
  }

  lemma TokenStarts(c: char, s: string)
    requires s != "" && s[0] == c
    ensures c != '[' && c != ']' && c != ',' && c != '"' && !IsLitChar(c) ==> NextToken(s) == None
  {
  }

  function Prepend(ts: seq<Token>, r: Option<seq<Token>>): Option<seq<Token>> {
    match r
    case None => None
    case Some(us) => Some(ts + us)
  }

  /** Reads one value from the front of a token sequence. */
  function ParseValue(ts: seq<Token>): (r: Option<(Value, seq<Token>)>)
    ensures r.Some? ==> |r.value.1| < |ts|
    decreases |ts|, 0
  {
    if ts == [] then None
    else match ts[0]
         case Str(_) => Some((Scalar(ts[0]), ts[1..]))
         case Lit(_) => Some((Scalar(ts[0]), ts[1..]))
         case LBracket =>
           if |ts| > 1 && ts[1] == RBracket then Some((Array([]), ts[2..]))
           else (match ParseElements(ts[1..])
                 case None => None
                 case Some((vs, rest)) => Some((Array(vs), rest)))
         case _ => None
  }

  /** Reads the remaining elements of an array and its closing bracket. */
  function ParseElements(ts: seq<Token>): (r: Option<(seq<Value>, seq<Token>)>)
    ensures r.Some? ==> |r.value.1| < |ts|
    decreases |ts|, 1
  {
    match ParseValue(ts)
    case None => None
    case Some((v, rest)) =>
      if rest == [] then None
      else if rest[0] == RBracket then Some(([v], rest[1..]))
      else if rest[0] == Comma then
        match ParseElements(rest[1..])
        case None => None
        case Some((vs, rest')) => Some(([v] + vs, rest'))
      else None
  }

  /** Reads a whole text as one value. */
  function Read(s: string): Option<Value> {
    match Lex(s)
    case None => None
    case Some(ts) =>
      match ParseValue(ts)
      case None => None
      case Some((v, rest)) => if rest == [] then Some(v) else None
  }

  // The tokens that a value is written with.

  function Write(v: Value): seq<Token>
    decreases v, 1
  {
    match v
    case Scalar(t) => [t]
    case Array(items) => [LBracket] + (WriteAll(items) + [RBracket])
  }

  function WriteAll(vs: seq<Value>): seq<Token>
    decreases vs, 0
  {
    if vs == [] then []
    else if |vs| == 1 then Write(vs[0])
    else Write(vs[0]) + ([Comma] + WriteAll(vs[1..]))
  }

  predicate WellFormed(v: Value)
    decreases v, 1
  {
    match v
    case Scalar(t) => t.Str? || t.Lit?
    case Array(items) => WellFormedAll(items)
  }

  predicate WellFormedAll(vs: seq<Value>)
    decreases vs, 0
  {
    vs != [] ==> WellFormed(vs[0]) && WellFormedAll(vs[1..])
  }

  /** What is parsed is written with the tokens that were read ... */
  lemma {:induction false} ParseSound(ts: seq<Token>)
    requires ParseValue(ts).Some?
    ensures var (v, rest) := ParseValue(ts).value; WellFormed(v) && ts == Write(v) + rest
    decreases |ts|, 0
  {
    if ts[0] == LBracket {
      if |ts| > 1 && ts[1] == RBracket {
        assert ts == [LBracket] + ([] + [RBracket]) + ts[2..];
      } else {
        ParseElementsSound(ts[1..]);
        assert ts == [LBracket] + ts[1..];
      }
    } else {
      assert ts == [ts[0]] + ts[1..];
    }
  }

  lemma {:induction false} ParseElementsSound(ts: seq<Token>)
    requires ParseElements(ts).Some?
    ensures var (vs, rest) := ParseElements(ts).value;
      vs != [] && WellFormedAll(vs) && ts == WriteAll(vs) + ([RBracket] + rest)
    decreases |ts|, 1
  {
    ParseSound(ts);
    hide ParseValue, Write, WellFormed;
    var (v, rest) := ParseValue(ts).value;
    assert rest == [rest[0]] + rest[1..];
    if rest[0] == RBracket {
      assert [v][1..] == [];
    } else {
      ParseElementsSound(rest[1..]);
      var (vs, end) := ParseElements(rest[1..]).value;
      assert ([v] + vs)[1..] == vs;
      var tail := [RBracket] + end;
      assert Write(v) + ([Comma] + (WriteAll(vs) + tail)) == Write(v) + ([Comma] + WriteAll(vs)) + tail;
    }
  }

  /** ... and every well-formed value is parsed from the tokens that it is written with. */
  lemma {:induction false} ParseComplete(v: Value, rest: seq<Token>)
    requires WellFormed(v)
    ensures ParseValue(Write(v) + rest) == Some((v, rest))
    decreases v, 1
  {
    match v
    case Scalar(t) =>
      assert ([t] + rest)[1..] == rest;
    case Array(items) =>
      var ts := Write(v) + rest;
      if items == [] {
        assert WriteAll(items) == [] && [] + [RBracket] == [RBracket];
        assert ts == [LBracket] + ([RBracket] + rest);
        assert ts[2..] == rest;
      } else {
        ParseElementsComplete(items, rest);
        assert ts[1..] == WriteAll(items) + ([RBracket] + rest);
        WriteStart(items);
      }
  }

  lemma {:induction false} WriteStart(vs: seq<Value>)
    requires vs != [] && WellFormedAll(vs)
    ensures WriteAll(vs) != [] && WriteAll(vs)[0] != RBracket
  {
    assert Write(vs[0]) != [] && Write(vs[0])[0] != RBracket;
  }

  lemma {:induction false} ParseElementsComplete(vs: seq<Value>, rest: seq<Token>)
    requires vs != [] && WellFormedAll(vs)
    ensures ParseElements(WriteAll(vs) + ([RBracket] + rest)) == Some((vs, rest))
    decreases vs, 0
  {
    hide ParseValue, Write, WellFormed;
    var tail := [RBracket] + rest;
    if |vs| == 1 {
      ParseComplete(vs[0], tail);
      assert tail[1..] == rest && vs == [vs[0]];
    } else {
      var others := WriteAll(vs[1..]);
      var more := [Comma] + (others + tail);
      ParseElementsComplete(vs[1..], rest);
      ParseComplete(vs[0], more);
      hide WriteAll;
      Regroup(Write(vs[0]), Comma, others, tail, more);
      assert more[1..] == others + tail && vs == [vs[0]] + vs[1..];
    }
  }

  /** A text reads as a value exactly when its tokens are those that the value is written with. */
  lemma ReadExact(s: string, v: Value)
    ensures Read(s) == Some(v) <==> WellFormed(v) && Lex(s) == Some(Write(v))
  {
    hide ParseValue, Write, WellFormed, Lex;
    if Lex(s).Some? && ParseValue(Lex(s).value).Some? {
      ParseSound(Lex(s).value);
      assert Write(ParseValue(Lex(s).value).value.0) + [] == Write(ParseValue(Lex(s).value).value.0);
    }
    if WellFormed(v) {
      ParseComplete(v, []);
      assert Write(v) + [] == Write(v);
    }
  }

  // Lexing a text token by token.

  lemma PrependAssociative(a: seq<Token>, b: seq<Token>, r: Option<seq<Token>>)
    ensures Prepend(a, Prepend(b, r)) == Prepend(a + b, r)
  {
    if r.Some? {
      assert a + (b + r.value) == (a + b) + r.value;
    }
  }

  lemma {:induction false} LexSpaces(sp: string, rest: string)
    requires All(IsSpace, sp)
    ensures Lex(sp + rest) == Lex(rest)
  {
    if sp == "" {
      assert sp + rest == rest;
    } else {
      assert (sp + rest)[1..] == sp[1..] + rest;
      LexSpaces(sp[1..], rest);
    }
  }

  lemma LexBracket(c: char, rest: string)
    requires c == '[' || c == ']' || c == ','
    ensures Lex([c] + rest)
         == Prepend([if c == '[' then LBracket else if c == ']' then RBracket else Comma], Lex(rest))
  {
    assert ([c] + rest)[1..] == rest;
  }

  lemma LexString(t: string, rest: string)
    requires IsString(t)
    ensures Lex(t + rest) == Prepend([Str(t)], Lex(rest))
  {
    var s := t + rest;
    assert s[1..] == t[1..] + rest;
    ClosingQuoteExtends(t[1..], rest);
    assert s[..|t|] == t && s[|t|..] == rest;
  }

  lemma LexLiteral(t: string, rest: string)
    requires IsLiteral(t)
    requires rest != "" && !IsLitChar(rest[0])
    ensures Lex(t + rest) == Prepend([Lit(t)], Lex(rest))
  {
    LiteralChars(t);
    hide IsLiteral;
    var s := t + rest;
    assert IsLitChar(t[0]) && s[0] == t[0];
    RunSplit(IsLitChar, t, rest);
  }

  lemma LiteralChars(t: string)
    requires IsLiteral(t)
    ensures t != "" && All(IsLitChar, t)
  {
    hide IsNumber;
  }

  /** A number or literal name, or anything else made of their characters and underscores. */
  predicate IsWord(t: string) {
    t != "" && forall i :: 0 <= i < |t| ==> IsLitChar(t[i]) || t[i] == '_'
  }

  /** A word with a capital other than I and N in front is no literal. */
  lemma NoDigitFirst(t: string)
    requires t != "" && 'A' <= t[0] <= 'Z' && t[0] != 'I' && t[0] != 'N'
    ensures !IsLiteral(t)
  {
    hide IsFraction;
    RunSplit(IsDigit, "", t);
    assert "" + t == t;
  }

  /** A word that is no literal does not lex, whatever follows. */
  lemma LexWordFails(t: string, rest: string)
    requires IsWord(t) && !IsLiteral(t)
    requires rest != "" && !IsLitChar(rest[0])
    ensures Lex(t + rest) == None
  {
    hide IsLiteral, Lex;
    var s, n := t + rest, Run(IsLitChar, t);
    assert s == t[..n] + (t[n..] + rest);
    RunSplit(IsLitChar, t[..n], t[n..] + rest);
    LexFirstWord(s, n);
    if n == |t| {
      assert t[..n] == t;
    } else {
      assert s[n] == '_';
      LexUnderscore(s[n..]);
    }
  }

  /** How a text that starts with a word lexes. */
  lemma LexFirstWord(s: string, n: nat)
    requires s != "" && (IsLitChar(s[0]) || s[0] == '_') && n == Run(IsLitChar, s)
    ensures Lex(s) == if IsLiteral(s[..n]) then Prepend([Lit(s[..n])], Lex(s[n..])) else None
  {
    hide IsLiteral;
  }

  lemma LexUnderscore(s: string)
    requires s != "" && s[0] == '_'
    ensures Lex(s) == None
  {
    RunSplit(IsLitChar, "", s);
    assert "" + s == s;
  }

  // Reading only succeeds on balanced brackets, and never where one array follows another without a comma.

  function Depth(ts: seq<Token>): int {
    if ts == [] then 0
    else (if ts[0] == LBracket then 1 else if ts[0] == RBracket then -1 else 0) + Depth(ts[1..])
  }

  lemma {:induction false} DepthAppend(a: seq<Token>, b: seq<Token>)
    ensures Depth(a + b) == Depth(a) + Depth(b)
  {
    if a == [] {
      assert a + b == b;
    } else {
      assert (a + b)[1..] == a[1..] + b;
      DepthAppend(a[1..], b);
    }
  }

  lemma {:induction false} ParseValueBalanced(ts: seq<Token>)
    requires ParseValue(ts).Some?
    ensures Depth(ts) == Depth(ParseValue(ts).value.1)
    decreases |ts|, 0
  {
    if ts[0] == LBracket {
      if |ts| > 1 && ts[1] == RBracket {
        assert ts[1..][1..] == ts[2..];
      } else {
        ParseElementsBalanced(ts[1..]);
      }
    }
  }

  lemma {:induction false} ParseElementsBalanced(ts: seq<Token>)
    requires ParseElements(ts).Some?
    ensures Depth(ts) == Depth(ParseElements(ts).value.1) - 1
    decreases |ts|, 1
  {
    ParseValueBalanced(ts);
    var rest := ParseValue(ts).value.1;
    if rest[0] == Comma {
      ParseElementsBalanced(rest[1..]);
    }
  }

  /** No closing bracket is followed by an opening one. */
  ghost predicate NoClash(ts: seq<Token>) {
    forall i :: 0 < i < |ts| && ts[i] == LBracket ==> ts[i - 1] != RBracket
  }

  lemma NoClashAppend(a: seq<Token>, b: seq<Token>)
    requires NoClash(a) && NoClash(b)
    requires a != [] && b != [] && b[0] == LBracket ==> a[|a| - 1] != RBracket
    ensures NoClash(a + b)
  {
    var ts := a + b;
    forall i | 0 < i < |ts| && ts[i] == LBracket
      ensures ts[i - 1] != RBracket
    {
      if i > |a| {
        assert ts[i] == b[i - |a|] && ts[i - 1] == b[i - |a| - 1];
      }
    }
  }

  /** The tokens of a value are a prefix without a clash. */
  lemma {:induction false} ParseValueClean(ts: seq<Token>) returns (used: seq<Token>)
    requires ParseValue(ts).Some?
    ensures ts == used + ParseValue(ts).value.1 && NoClash(used)
    decreases |ts|, 0
  {
    if ts[0] == LBracket && !(|ts| > 1 && ts[1] == RBracket) {
      var inner := ParseElementsClean(ts[1..]);
      used := [LBracket] + inner;
      NoClashAppend([LBracket], inner);
      assert ts == [LBracket] + ts[1..];
    } else {
      used := if ts[0] == LBracket then ts[..2] else ts[..1];
    }
  }

  lemma {:induction false} ParseElementsClean(ts: seq<Token>) returns (used: seq<Token>)
    requires ParseElements(ts).Some?
    ensures ts == used + ParseElements(ts).value.1 && NoClash(used)
    decreases |ts|, 1
  {
    hide ParseValue, NoClash;
    var first := ParseValueClean(ts);
    var rest := ParseValue(ts).value.1;
    SingleClean(rest[0]);
    if rest[0] == RBracket {
      used := first + [RBracket];
      NoClashAppend(first, [RBracket]);
      Regroup(first, RBracket, [], rest[1..], rest);
      assert [RBracket] + [] == [RBracket];
    } else {
      var more := ParseElementsClean(rest[1..]);
      NoClashAppend([Comma], more);
      NoClashAppend(first, [Comma] + more);
      Regroup(first, Comma, more, ParseElements(rest[1..]).value.1, rest);
      used := first + ([Comma] + more);
    }
  }

  lemma SingleClean(t: Token)
    ensures NoClash([t])
  {
  }

  lemma Regroup(first: seq<Token>, t: Token, more: seq<Token>, end: seq<Token>, rest: seq<Token>)
    requires rest != [] && rest[0] == t && rest[1..] == more + end
    ensures first + rest == first + ([t] + more) + end
  {
    assert rest == [t] + (more + end);
  }

  /** A text that reads as a value has no array directly after another. */
  lemma ReadClean(s: string)
    requires Read(s).Some?
    ensures Lex(s).Some? && NoClash(Lex(s).value)
  {
    var used := ParseValueClean(Lex(s).value);
    assert used + [] == used;
  }

  /** A text that reads as a value has as many closing as opening brackets outside strings. */
  lemma ReadBalanced(s: string)
    requires Read(s).Some?
    ensures Lex(s).Some? && Depth(Lex(s).value) == 0
  {
    ParseValueBalanced(Lex(s).value);
  }
}
