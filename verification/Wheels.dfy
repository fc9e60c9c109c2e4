/** Printing, parsing and rewriting wheel file names: release/ray_release/wheels.py with the number
    printer of util.py and the number parser of config.py. The names follow PEP 427. */
module Wheels {
  import opened Options
  import opened Texts

  // Decimal numbers.

  function Decimal(n: nat): string {
    if n < 10 then ['0' + n as char] else Decimal(n / 10) + ['0' + (n % 10) as char]
  }

  function Value(s: string): nat
    requires All(IsDigit, s)
  {
    if s == "" then 0 else Value(s[..|s| - 1]) * 10 + (s[|s| - 1] - '0') as nat
  }

  lemma {:induction false} DecimalValue(n: nat)
    ensures All(IsDigit, Decimal(n)) && Value(Decimal(n)) == n
    ensures |Decimal(n)| >= 1 && (n < 10 ==> |Decimal(n)| == 1) && (n < 100 ==> |Decimal(n)| <= 2)
  {
    if n >= 10 {
      DecimalValue(n / 10);
      assert Decimal(n)[..|Decimal(n)| - 1] == Decimal(n / 10);
    } else {
      assert Decimal(n)[..0] == "";
    }
  }

  lemma {:induction false} ValueBounds(s: string)
    requires All(IsDigit, s)
    ensures |s| == 0 ==> Value(s) == 0
    ensures |s| <= 1 ==> Value(s) < 10
    ensures |s| <= 2 ==> Value(s) < 100
  {
    if |s| > 0 {
      ValueBounds(s[..|s| - 1]);
      assert |s| == 1 ==> s[..0] == "";
    }
  }

  datatype Python = Python(major: nat, minor: nat)

  /** Both numbers, without a separator. */
  function PythonStr(py: Python): string {
    Decimal(py.major) + Decimal(py.minor)
  }

  /** One digit, an optional dot, then digits. A final line break is accepted. */
  function ParsePython(version: string): (r: Option<Python>)
    ensures r.Some? ==> r.value.major < 10
  {
    var s := if version != "" && version[|version| - 1] == '\n' then version[..|version| - 1] else version;
    if s == "" || !IsDigit(s[0]) then None
    else
      var rest := if |s| > 1 && s[1] == '.' then s[2..] else s[1..];
      if rest != "" && All(IsDigit, rest) then Some(Python(DigitValue(s[0]), Value(rest))) else None
  }

  function DigitValue(c: char): nat
    requires IsDigit(c)
  {
    (c - '0') as nat
  }

  /** The text is a digit, perhaps a dot, and digits, perhaps with a line break at the end. */
  ghost predicate PythonText(text: string, digit: char, dot: bool, minor: string, eol: bool) {
    && IsDigit(digit) && minor != "" && All(IsDigit, minor)
    && text == [digit] + ((if dot then "." else "") + (minor + if eol then "\n" else ""))
  }

  /** A version is parsed exactly from such a text, to the digit and the number that the digits make. */
  lemma ParsePythonExact(text: string)
    ensures forall digit, dot, minor, eol :: PythonText(text, digit, dot, minor, eol) ==>
      ParsePython(text) == Some(Python(DigitValue(digit), Value(minor)))
    ensures ParsePython(text).Some? ==> exists digit, dot, minor, eol :: PythonText(text, digit, dot, minor, eol)
  {
    forall digit, dot, minor, eol | PythonText(text, digit, dot, minor, eol)
      ensures ParsePython(text) == Some(Python(DigitValue(digit), Value(minor)))
    {
      ParsePythonText(text, digit, dot, minor, eol);
    }
    if ParsePython(text).Some? {
      var eol := text[|text| - 1] == '\n';
      var s := if eol then text[..|text| - 1] else text;
      var dot := |s| > 1 && s[1] == '.';
      var minor := if dot then s[2..] else s[1..];
      assert PythonText(text, s[0], dot, minor, eol);
    }
  }

  lemma ParsePythonText(text: string, digit: char, dot: bool, minor: string, eol: bool)
    requires PythonText(text, digit, dot, minor, eol)
    ensures ParsePython(text) == Some(Python(DigitValue(digit), Value(minor)))
  {
    hide Value, All;
    var s := [digit] + ((if dot then "." else "") + minor);
    assert text == if eol then s + "\n" else s;
    MinorDigits(minor);
    assert s[|s| - 1] == minor[|minor| - 1];
    assert (if eol then text[..|text| - 1] else text) == s;
    if dot {
      assert s[2..] == minor;
    } else {
      assert s[1..] == minor && s[1] == minor[0];
    }
  }

  lemma MinorDigits(minor: string)
    requires minor != "" && All(IsDigit, minor)
    ensures IsDigit(minor[0]) && IsDigit(minor[|minor| - 1])
  {
  }

  // File names.

  const PLATFORM := "-manylinux2014_x86_64.whl"

  /** What follows the version in a wheel name for a Python version. */
  function Tail(py: Python): string {
    "-cp" + (PythonStr(py) + ("-cp" + (PythonStr(py) + (Abi(py) + PLATFORM))))
  }

  function Abi(py: Python): string {
    if py.minor <= 7 then "m" else ""
  }

  function Filename(version: string, py: Python): string {
    "ray-" + (version + Tail(py))
  }

  // The file name pattern.

  predicate IsVersionChar(c: char) {
    '0' <= c <= '9' || 'a' <= c <= 'z' || c == '.'
  }

  predicate IsVersion(v: string) {
    v != "" && All(IsVersionChar, v)
  }

  /** Versions have digits, lower-case letters and dots, and nothing else. */
  lemma VersionsAs()
    ensures IsVersion("0.9dev8z") && IsVersion("a") && !IsVersion("1.0A") && !IsVersion("1-0") && !IsVersion("1+0") && !IsVersion("")
  {
    assert "1.0A"[3] == 'A' && "1-0"[1] == '-' && "1+0"[1] == '+';
  }

  /** Matches "-cp" and two or three digits; returns the digits and the rest. */
  function CpDigits(s: string): Option<(string, string)> {
    if "-cp" <= s then
      var r := s[3..];
      var n := Run(IsDigit, r);
      if 2 <= n <= 3 then Some((r[..n], r[n..])) else None
    else None
  }

  predicate IsEnd(s: string) {
    s == PLATFORM || s == PLATFORM + "\n"
  }

  /** Matches what follows the version up to the end of the name; returns the first digits. */
  function MatchTail(s: string): Option<string> {
    match CpDigits(s)
    case None => None
    case Some((digits, r1)) =>
      match CpDigits(r1)
      case None => None
      case Some((_, r2)) => if IsEnd(if "m" <= r2 then r2[1..] else r2) then Some(digits) else None
  }

  /** Matches the pattern at the start of a text; returns the version and the first digits. */
  function MatchAt(s: string): Option<(string, string)> {
    if "ray-" <= s then
      var r := s[4..];
      var n := Run(IsVersionChar, r);
      match MatchTail(r[n..])
      case None => None
      case Some(digits) => if n > 0 then Some((r[..n], digits)) else None
    else None
  }

  /** The leftmost match in a text. */
  function Search(s: string): Option<(string, string)> {
    match MatchAt(s)
    case Some(m) => Some(m)
    case None => if s == "" then None else Search(s[1..])
  }

  datatype Parsed = Parsed(version: Option<string>, python: Option<Python>)

  function ParseFilename(s: string): Parsed {
    match Search(s)
    case None => Parsed(None, None)
    case Some((version, digits)) => Parsed(Some(version), ParsePython(digits))
  }

  // Parsing a printed name.

  lemma CpDigitsOf(digits: string, rest: string)
    requires All(IsDigit, digits) && 2 <= |digits| <= 3
    requires rest != "" && !IsDigit(rest[0])
    ensures CpDigits("-cp" + (digits + rest)) == Some((digits, rest))
  {
    assert ("-cp" + (digits + rest))[3..] == digits + rest;
    RunSplit(IsDigit, digits, rest);
  }

  lemma MatchTailOf(py: Python)
    requires py.major < 10 && py.minor < 100
    ensures MatchTail(Tail(py)) == Some(PythonStr(py))
  {
    hide CpDigits;
    var digits := PythonStr(py);
    DecimalValue(py.major);
    DecimalValue(py.minor);
    hide Decimal;
    var r2 := Abi(py) + PLATFORM;
    var r1 := "-cp" + (digits + r2);
    CpDigitsOf(digits, r1);
    CpDigitsOf(digits, r2);
    if py.minor <= 7 {
      assert r2[1..] == PLATFORM;
    } else {
      assert r2 == PLATFORM;
    }
  }

  lemma MatchParts(version: string, tail: string)
    requires IsVersion(version) && tail != "" && tail[0] == '-' && MatchTail(tail).Some?
    ensures MatchAt("ray-" + (version + tail)) == Some((version, MatchTail(tail).value))
  {
    hide MatchTail;
    assert ("ray-" + (version + tail))[4..] == version + tail;
    RunSplit(IsVersionChar, version, tail);
  }

  lemma MatchName(version: string, py: Python)
    requires IsVersion(version) && py.major < 10 && py.minor < 100
    ensures MatchAt(Filename(version, py)) == Some((version, PythonStr(py)))
  {
    hide MatchAt, MatchTail;
    MatchTailOf(py);
    MatchParts(version, Tail(py));
  }

  // A match needs exactly four dashes, so it cannot start before the printed name.

  function Dashes(s: string): nat {
    if s == "" then 0 else (if s[0] == '-' then 1 else 0) + Dashes(s[1..])
  }

  lemma {:induction false} DashesAppend(a: string, b: string)
    ensures Dashes(a + b) == Dashes(a) + Dashes(b)
  {
    if a == "" {
      assert a + b == b;
    } else {
      assert (a + b)[1..] == a[1..] + b;
      DashesAppend(a[1..], b);
    }
  }

  lemma {:induction false} NoDashes(s: string)
    requires forall i :: 0 <= i < |s| ==> s[i] != '-'
    ensures Dashes(s) == 0
  {
    if s != "" {
      NoDashes(s[1..]);
    }
  }

  lemma DashFirst(rest: string)
    ensures Dashes("-" + rest) == 1 + Dashes(rest)
  {
    assert ("-" + rest)[1..] == rest;
  }

  lemma CpDashes(digits: string, rest: string)
    requires All(IsDigit, digits)
    ensures Dashes("-cp" + (digits + rest)) == 1 + Dashes(rest)
  {
    var s := "-cp" + (digits + rest);
    assert s == "-" + (("cp" + digits) + rest);
    NoDashes("cp" + digits);
    DashesAppend("cp" + digits, rest);
    assert s[1..] == ("cp" + digits) + rest;
  }

  lemma {:induction false} CpDigitsShape(s: string)
    requires CpDigits(s).Some?
    ensures var (digits, rest) := CpDigits(s).value;
      All(IsDigit, digits) && s == "-cp" + (digits + rest) && Dashes(s) == 1 + Dashes(rest)
  {
    var (digits, rest) := CpDigits(s).value;
    assert s == "-cp" + (digits + rest);
    CpDashes(digits, rest);
  }

  lemma PlatformDashes()
    ensures Dashes(PLATFORM) == 1 && Dashes(PLATFORM + "\n") == 1
  {
    hide Dashes;
    var rest := "manylinux2014_x86_64.whl";
    NoDashes(rest);
    NoDashes("\n");
    DashFirst(rest);
    DashesAppend(PLATFORM, "\n");
    assert PLATFORM == "-" + rest;
  }

  lemma {:induction false} EndDashes(s: string)
    requires IsEnd(s) || ("m" <= s && IsEnd(s[1..]))
    ensures Dashes(s) == 1
  {
    PlatformDashes();
    hide Dashes;
    if !IsEnd(s) {
      assert s == "m" + s[1..];
      NoDashes("m");
      DashesAppend("m", s[1..]);
    }
  }

  lemma MatchTailDashes(s: string)
    requires MatchTail(s).Some?
    ensures Dashes(s) == 3
  {
    CpDigitsShape(s);
    var r1 := CpDigits(s).value.1;
    CpDigitsShape(r1);
    EndDashes(CpDigits(r1).value.1);
  }

  lemma RayDashes(rest: string)
    ensures Dashes("ray-" + rest) == 1 + Dashes(rest)
  {
    hide Dashes;
    NoDashes("ray");
    DashFirst(rest);
    DashesAppend("ray", "-" + rest);
    assert "ray-" + rest == "ray" + ("-" + rest);
  }

  lemma MatchShape(s: string) returns (version: string, tail: string)
    requires MatchAt(s).Some?
    ensures IsVersion(version) && MatchTail(tail).Some? && s == "ray-" + (version + tail)
    ensures MatchAt(s).value == (version, MatchTail(tail).value)
  {
    hide MatchTail, RunFrom;
    var r := s[4..];
    var n := Run(IsVersionChar, r);
    version, tail := r[..n], r[n..];
    assert IsVersion(version) && MatchTail(tail).Some?;
    assert s[..4] == "ray-" && version + tail == r;
    assert s == s[..4] + r;
  }

  lemma MatchDashes(s: string)
    requires MatchAt(s).Some?
    ensures |s| > 4 && s[..4] == "ray-" && Dashes(s) == 4
  {
    hide MatchTail, MatchAt, Dashes;
    var version, tail := MatchShape(s);
    NoDashes(version);
    MatchTailDashes(tail);
    DashesAppend(version, tail);
    RayDashes(version + tail);
  }

  /** The printed name is found after any prefix. */
  lemma {:induction false} SearchName(prefix: string, version: string, py: Python)
    requires IsVersion(version) && py.major < 10 && py.minor < 100
    ensures Search(prefix + Filename(version, py)) == Some((version, PythonStr(py)))
  {
    hide MatchAt, Tail;
    var name := Filename(version, py);
    var s := prefix + name;
    MatchName(version, py);
    MatchDashes(name);
    if prefix == "" {
      assert s == name;
    } else {
      if MatchAt(s).Some? {
        MatchDashes(s);
        DashesAppend(prefix, name);
        FirstDashLater(prefix, name);
      }
      assert s[1..] == prefix[1..] + name;
      SearchName(prefix[1..], version, py);
    }
  }

  lemma FirstDashLater(prefix: string, name: string)
    requires prefix != "" && Dashes(prefix) == 0 && |name| > 4 && name[..4] == "ray-"
    ensures (prefix + name)[..4] != "ray-"
  {
    if |prefix| > 3 {
      DashAt(prefix, 3);
      assert (prefix + name)[..4][3] == prefix[3];
    } else {
      assert (prefix + name)[3] == name[3 - |prefix|] == name[..4][3 - |prefix|];
    }
  }

  lemma {:induction false} DashAt(s: string, i: nat)
    requires Dashes(s) == 0 && i < |s|
    ensures s[i] != '-'
  {
    if i > 0 {
      DashAt(s[1..], i - 1);
    }
  }

  lemma ParsePrintedPython(py: Python)
    requires py.major < 10
    ensures ParsePython(PythonStr(py)) == Some(py)
  {
    hide ParsePython;
    var major, minor := Decimal(py.major), Decimal(py.minor);
    DecimalValue(py.major);
    DecimalValue(py.minor);
    hide Decimal;
    assert major == [major[0]] && major[..0] == "";
    assert Value(major) == DigitValue(major[0]);
    ParseDigits(major[0], minor);
  }

  lemma ParseDigits(digit: char, minor: string)
    requires IsDigit(digit) && minor != "" && All(IsDigit, minor)
    ensures ParsePython([digit] + minor) == Some(Python(DigitValue(digit), Value(minor)))
  {
    hide Value;
    var s := [digit] + minor;
    assert s[1..] == minor && s[1] == minor[0] && s[|s| - 1] == minor[|minor| - 1];
  }

  lemma {:induction false} SearchFinds(s: string)
    requires Search(s).Some?
    ensures var (version, digits) := Search(s).value;
      IsVersion(version) && All(IsDigit, digits) && 2 <= |digits| <= 3
  {
    hide MatchAt;
    if MatchAt(s).Some? {
      var version, tail := MatchShape(s);
    } else {
      SearchFinds(s[1..]);
    }
  }

  /** A version is never found without a Python version that one or two digits can express. */
  lemma ParsedTogether(s: string)
    ensures var p := ParseFilename(s);
      && (p.version.Some? <==> p.python.Some?)
      && (p.version.Some? ==> IsVersion(p.version.value) && p.python.value.major < 10 && p.python.value.minor < 100)
  {
    hide Search;
    if Search(s).Some? {
      SearchFinds(s);
      var digits := Search(s).value.1;
      assert digits[|digits| - 1] != '\n' && digits[1] != '.' && IsDigit(digits[0]);
      assert All(IsDigit, digits[1..]);
      ValueBounds(digits[1..]);
    }
  }

  /** Parsing a printed name, after any prefix, returns both versions exactly when the ray version
      is made of lower-case letters, digits and dots and the Python version fits in three digits of
      which one is the major version. */
  lemma RoundTrip(prefix: string, version: string, py: Python)
    ensures ParseFilename(prefix + Filename(version, py)) == Parsed(Some(version), Some(py))
       <==> IsVersion(version) && py.major < 10 && py.minor < 100
  {
    hide Search, ParsePython, IsVersion, PythonStr, Tail;
    if IsVersion(version) && py.major < 10 && py.minor < 100 {
      SearchName(prefix, version, py);
      ParsePrintedPython(py);
    } else {
      ParsedTogether(prefix + Filename(version, py));
    }
  }

  /** Names as they are: the ABI tag is written up to Python 3.7 and not after. */
  lemma PrintsAs()
    ensures Filename("2.1", Python(3, 7)) == "ray-2.1-cp37-cp37m" + "-manylinux2014_x86_64.whl"
    ensures Filename("2.1", Python(3, 10)) == "ray-2.1-cp310-cp310" + "-manylinux2014_x86_64.whl"
  {
    DigitsAs();
    hide PythonStr;
    GlueTagged(PLATFORM);
    GluePlain(PLATFORM);
  }

  lemma DigitsAs()
    ensures PythonStr(Python(3, 7)) == "37" && PythonStr(Python(3, 10)) == "310"
  {
    assert Decimal(3) == "3" && Decimal(7) == "7" && Decimal(1) == "1";
    assert Decimal(10) == Decimal(1) + "0";
  }

  lemma GlueTagged(end: string)
    ensures "ray-" + ("2.1" + ("-cp" + ("37" + ("-cp" + ("37" + ("m" + end)))))) == "ray-2.1-cp37-cp37m" + end
  {
    assert "ray-" + ("2.1" + ("-cp" + ("37" + ("-cp" + ("37" + "m"))))) == "ray-2.1-cp37-cp37m";
  }

  lemma GluePlain(end: string)
    ensures "ray-" + ("2.1" + ("-cp" + ("310" + ("-cp" + ("310" + ("" + end)))))) == "ray-2.1-cp310-cp310" + end
  {
    assert "ray-" + ("2.1" + ("-cp" + ("310" + ("-cp" + ("310" + ""))))) == "ray-2.1-cp310-cp310";
  }

  /** For all versions: the tag is there exactly for minor versions up to 7. */
  lemma AbiExact(version: string, py: Python)
    ensures EndsWith(Filename(version, py), "m" + PLATFORM) <==> py.minor <= 7
  {
    hide EndsWith, Filename;
    NameEndsInTail(version, py);
    if py.minor <= 7 {
      TaggedEnd(py);
      EndsWithTransitive(Filename(version, py), Tail(py), "m" + PLATFORM);
    } else {
      PlainTail(py);
      PlainEnd(Filename(version, py), py);
    }
  }

  lemma TaggedEnd(py: Python)
    requires py.minor <= 7
    ensures EndsWith(Tail(py), "m" + PLATFORM)
  {
    var digits := PythonStr(py);
    assert Tail(py) == ("-cp" + (digits + ("-cp" + digits))) + ("m" + PLATFORM);
  }

  lemma PlainEnd(name: string, py: Python)
    requires EndsWith(name, Tail(py)) && |Tail(py)| >= 26 && IsDigit(Tail(py)[|Tail(py)| - 26])
    ensures !EndsWith(name, "m" + PLATFORM)
  {
    hide Tail;
    var n := |name|;
    assert name[n - 26] == name[n - |Tail(py)|..][|Tail(py)| - 26];
    assert ("m" + PLATFORM)[0] == 'm' && |"m" + PLATFORM| == 26;
    assert name[n - 26..][0] == name[n - 26];
  }

  /** A three-digit minor version is printed but not parsed. */
  lemma LongMinorLost()
    ensures ParseFilename(Filename("2", Python(3, 100))) != Parsed(Some("2"), Some(Python(3, 100)))
  {
    hide ParseFilename, Filename;
    RoundTrip("", "2", Python(3, 100));
    assert "" + Filename("2", Python(3, 100)) == Filename("2", Python(3, 100));
  }

  // Matching and rewriting a URL.

  predicate EndsWith(s: string, t: string) {
    |t| <= |s| && s[|s| - |t|..] == t
  }

  /** Compares the end of the URL with an expected name whose first seven characters are cut. */
  predicate Matches(url: string, py: Python) {
    EndsWith(url, Filename("xxx", py)[7..])
  }

  lemma ExpectedTail(py: Python)
    ensures Filename("xxx", py)[7..] == Tail(py)
  {
    hide Tail;
    assert Filename("xxx", py) == "ray-xxx" + Tail(py);
  }

  /** Replaces every occurrence of a text, from the left and without overlaps. */
  function ReplaceAll(s: string, from: string, to: string): string
    requires from != ""
    decreases |s|
  {
    if |s| < |from| then s
    else if s[..|from|] == from then to + ReplaceAll(s[|from|..], from, to)
    else [s[0]] + ReplaceAll(s[1..], from, to)
  }

  /** The text occurs at position i. */
  ghost predicate OccursAt(s: string, from: string, i: nat) {
    i + |from| <= |s| && s[i..i + |from|] == from
  }

  lemma OccursFirst(s: string, from: string)
    ensures OccursAt(s, from, 0) <==> |from| <= |s| && s[..|from|] == from
  {
  }

  lemma OccursShift(s: string, from: string, j: nat)
    requires s != ""
    ensures OccursAt(s[1..], from, j) <==> OccursAt(s, from, j + 1)
  {
    if j + 1 + |from| <= |s| {
      assert s[1..][j..j + |from|] == s[j + 1..j + 1 + |from|];
    }
  }

  /** Replacing changes the first occurrence and goes on after it ... */
  lemma {:induction false} ReplaceFirst(front: string, from: string, rest: string, to: string)
    requires from != "" && forall j: nat :: j < |front| ==> !OccursAt(front + (from + rest), from, j)
    ensures ReplaceAll(front + (from + rest), from, to) == front + (to + ReplaceAll(rest, from, to))
    decreases |front|
  {
    hide OccursAt;
    var s := front + (from + rest);
    if front == "" {
      assert s == from + rest && s[..|from|] == from && s[|from|..] == rest;
      assert "" + (to + ReplaceAll(rest, from, to)) == to + ReplaceAll(rest, from, to);
    } else {
      assert s[1..] == front[1..] + (from + rest) && s[0] == front[0];
      forall j: nat | j < |front[1..]|
        ensures !OccursAt(s[1..], from, j)
      {
        OccursShift(s, from, j);
      }
      assert !OccursAt(s, from, 0);
      OccursFirst(s, from);
      ReplaceFirst(front[1..], from, rest, to);
      hide ReplaceAll;
      var end := to + ReplaceAll(rest, from, to);
      assert [s[0]] + (front[1..] + end) == front + end;
    }
  }

  /** ... and changes nothing if there is none. */
  lemma {:induction false} ReplaceNone(s: string, from: string, to: string)
    requires from != "" && forall j: nat :: !OccursAt(s, from, j)
    ensures ReplaceAll(s, from, to) == s
    decreases |s|
  {
    hide OccursAt;
    OccursFirst(s, from);
    if |s| >= |from| {
      forall j: nat
        ensures !OccursAt(s[1..], from, j)
      {
        OccursShift(s, from, j);
      }
      ReplaceNone(s[1..], from, to);
      assert s == [s[0]] + s[1..];
    }
  }

  /** The rewriter, after the URL has been resolved. */
  function Rewrite(url: string, py: Python): string {
    if Matches(url, py) then url
    else
      var p := ParseFilename(url);
      if p.version.None? || p.python.None? then url
      else ReplaceAll(url, Filename(p.version.value, p.python.value), Filename(p.version.value, py))
  }

  // A text that ends in the platform tag and has no other underscore does not overlap itself.

  ghost predicate Tagged(x: string) {
    && |x| >= 25 && x[|x| - 25..] == PLATFORM
    && (forall i :: 0 <= i < |x| - 25 ==> x[i] != '_')
    && (x[0] == 'r' || x[0] == '-')
  }

  lemma Underscores(x: string, i: nat)
    requires Tagged(x) && i < |x|
    ensures x[i] == '_' <==> i == |x| - 7 || i == |x| - 11
  {
    if i >= |x| - 25 {
      assert x[i] == PLATFORM[i - (|x| - 25)];
    }
  }

  lemma NoBorder(x: string, b: nat)
    requires Tagged(x) && 0 < b < |x|
    ensures x[..b] != x[|x| - b..]
  {
    var i := 0;
    if b >= 7 {
      Underscores(x, b - 7);
      Underscores(x, |x| - 7);
      i := b - 7;
      if b >= 11 && x[i] == '_' {
        Underscores(x, b - 11);
        Underscores(x, |x| - 11);
        i := b - 11;
      }
    } else {
      assert x[|x| - b] == PLATFORM[25 - b];
    }
    assert x[..b][i] != x[|x| - b..][i];
  }

  ghost predicate NoUnderscore(s: string) {
    forall i :: 0 <= i < |s| ==> s[i] != '_'
  }

  lemma TaggedName(head: string)
    requires NoUnderscore(head) && head != "" && (head[0] == 'r' || head[0] == '-')
    ensures Tagged(head + PLATFORM)
  {
    var x := head + PLATFORM;
    assert x[|x| - 25..] == PLATFORM;
  }

  lemma TailHead(py: Python) returns (head: string)
    ensures Tail(py) == head + PLATFORM && NoUnderscore(head) && head != "" && head[0] == '-'
  {
    DecimalValue(py.major);
    DecimalValue(py.minor);
    hide Decimal;
    var digits := PythonStr(py);
    assert NoUnderscore(digits) by {
      assert forall i :: 0 <= i < |digits| ==> IsDigit(digits[i]);
    }
    head := "-cp" + digits + ("-cp" + digits) + Abi(py);
    assert NoUnderscore("-cp" + digits);
    hide PythonStr;
    assert Tail(py) == head + PLATFORM;
  }

  lemma NameTagged(version: string, py: Python)
    requires IsVersion(version)
    ensures Tagged(Tail(py)) && Tagged(Filename(version, py)) && Filename(version, py) != ""
  {
    var head := TailHead(py);
    hide Tail, Tagged;
    assert NoUnderscore("ray-" + version);
    TaggedName(head);
    TaggedName("ray-" + version + head);
    assert Filename(version, py) == "ray-" + version + head + PLATFORM;
  }

  /** Replacing a name that ends a text leaves the replacement at the end. */
  lemma {:induction false} ReplaceAtEnd(prefix: string, from: string, to: string)
    requires Tagged(from)
    ensures EndsWith(ReplaceAll(prefix + from, from, to), to)
    decreases |prefix|
  {
    hide Tagged, EndsWith;
    var s, n := prefix + from, |from|;
    TaggedSize(from);
    if prefix == "" {
      assert s == from && s[..n] == from && s[n..] == "";
      assert to + "" == to;
      EndsWithSizes(to, to);
    } else if s[..n] == from {
      if |prefix| < n {
        NoOverlap(prefix, from);
      } else {
        assert s[n..] == prefix[n..] + from;
        ReplaceAtEnd(prefix[n..], from, to);
        EndsWithExtends(to, ReplaceAll(s[n..], from, to), to);
      }
    } else {
      assert s[1..] == prefix[1..] + from;
      ReplaceAtEnd(prefix[1..], from, to);
      EndsWithExtends([s[0]], ReplaceAll(s[1..], from, to), to);
    }
  }

  lemma TaggedSize(x: string)
    requires Tagged(x)
    ensures |x| >= 25
  {
  }

  /** A tagged text does not start inside a shorter prefix of itself. */
  lemma NoOverlap(prefix: string, from: string)
    requires Tagged(from) && 0 < |prefix| < |from|
    ensures (prefix + from)[..|from|] != from
  {
    var b := |from| - |prefix|;
    NoBorder(from, b);
    assert (prefix + from)[..|from|][|prefix|..] == from[..b];
  }

  lemma EndsWithExtends(a: string, s: string, t: string)
    requires EndsWith(s, t)
    ensures EndsWith(a + s, t)
  {
  }

  lemma EndsWithSizes(s: string, t: string)
    ensures EndsWith(s, t) ==> |t| <= |s|
    ensures EndsWith(s, s)
  {
    assert s[0..] == s;
  }

  lemma EndsWithLong(a: string, s: string, t: string)
    ensures |t| <= |s| ==> (EndsWith(a + s, t) <==> EndsWith(s, t))
    ensures EndsWith(s, t) ==> EndsWith(a + s, t)
  {
    if |t| <= |s| {
      assert (a + s)[|a + s| - |t|..] == s[|s| - |t|..];
    }
  }

  /** A text that was changed is at least as long as the replacement. */
  lemma {:induction false} ReplaceShort(s: string, from: string, to: string)
    requires from != "" && |ReplaceAll(s, from, to)| < |to|
    ensures ReplaceAll(s, from, to) == s
    decreases |s|
  {
    if |s| >= |from| && s[..|from|] != from {
      ReplaceShort(s[1..], from, to);
    }
  }

  /** Replacements elsewhere never make a text end in the tail of the replacement. */
  lemma {:induction false} ReplaceElsewhere(s: string, from: string, to: string, tail: string)
    requires from != "" && EndsWith(to, tail) && Tagged(tail)
    requires !EndsWith(s, from) && !EndsWith(s, tail)
    ensures !EndsWith(ReplaceAll(s, from, to), tail)
    decreases |s|
  {
    hide EndsWith, Tagged;
    EndsWithSizes(to, tail);
    EndsWithSizes(from, from);
    if |s| >= |from| {
      var first := s[..|from|] == from;
      var front, rest := if first then from else [s[0]], if first then s[|from|..] else s[1..];
      assert s == front + rest;
      EndsWithLong(front, rest, from);
      EndsWithLong(front, rest, tail);
      ReplaceElsewhere(rest, from, to, tail);
      var r := ReplaceAll(rest, from, to);
      if |r| < |tail| {
        ReplaceShort(rest, from, to);
        if first {
          assert rest == "" ==> s == from;
          NoStraddle(to, rest, tail);
        }
      } else {
        EndsWithLong(if first then to else [s[0]], r, tail);
      }
    }
  }

  /** A tail does not lie across the end of a text that ends in it. */
  lemma NoStraddle(to: string, rest: string, tail: string)
    requires EndsWith(to, tail) && Tagged(tail) && 0 < |rest| < |tail|
    ensures !EndsWith(to + rest, tail)
  {
    var b := |tail| - |rest|;
    NoBorder(tail, b);
    var end := (to + rest)[|to| + |rest| - |tail|..];
    assert end[..b] == to[|to| - b..] == to[|to| - |tail|..][|rest|..];
  }

  /** The URL ends in the very name that its parsed versions print to. */
  predicate NamesItself(url: string) {
    var p := ParseFilename(url);
    p.version.Some? && p.python.Some? && EndsWith(url, Filename(p.version.value, p.python.value))
  }

  lemma NameEndsInTail(version: string, py: Python)
    ensures EndsWith(Filename(version, py), Tail(py))
  {
    hide Tail;
    EndsWithExtends(version, Tail(py), Tail(py));
    EndsWithExtends("ray-", version + Tail(py), Tail(py));
  }

  lemma EndsWithTransitive(s: string, t: string, u: string)
    requires EndsWith(s, t) && EndsWith(t, u)
    ensures EndsWith(s, u)
  {
    assert s[|s| - |u|..] == t[|t| - |u|..];
  }

  /** Exactly when the rewritten URL matches the requested Python version: it matched before, or it
      ends in a name as the printer would write it. */
  lemma RewriteMatches(url: string, py: Python)
    ensures Matches(Rewrite(url, py), py) <==> Matches(url, py) || NamesItself(url)
  {
    hide ParseFilename, Filename, Tail, Tagged, EndsWith;
    ExpectedTail(py);
    var p := ParseFilename(url);
    if !Matches(url, py) && p.version.Some? && p.python.Some? {
      ParsedTogether(url);
      var from, to := Filename(p.version.value, p.python.value), Filename(p.version.value, py);
      NameTagged(p.version.value, p.python.value);
      NameTagged(p.version.value, py);
      NameEndsInTail(p.version.value, py);
      if EndsWith(url, from) {
        RewriteAtEnd(url, from, to);
        EndsWithTransitive(ReplaceAll(url, from, to), to, Tail(py));
      } else {
        ReplaceElsewhere(url, from, to, Tail(py));
      }
    }
  }

  /** A name with an ABI tag that the printer would not write: it is parsed, but not rewritten to match. */
  lemma OddNameKept()
    ensures var url := "ray-2-cp38-cp38m" + PLATFORM;
      ParseFilename(url) == Parsed(Some("2"), Some(Python(3, 8))) && !Matches(Rewrite(url, Python(3, 9)), Python(3, 9))
  {
    var url := "ray-2-cp38-cp38m" + PLATFORM;
    OddNameParsed();
    RewriteMatches(url, Python(3, 9));
    hide ParseFilename, Rewrite, Tail;
    ExpectedTail(Python(3, 9));
    NoPlainTail(url, Python(3, 9));
    NoPlainTail(url, Python(3, 8));
    NameEndsInTail("2", Python(3, 8));
    if NamesItself(url) {
      EndsWithTransitive(url, Filename("2", Python(3, 8)), Tail(Python(3, 8)));
    }
  }

  /** Only the first digits count, and a line break may follow the name. */
  lemma FirstDigitsCount()
    ensures ParseFilename("ray-2-cp38-cp39" + (PLATFORM + "\n")) == Parsed(Some("2"), Some(Python(3, 8)))
  {
    hide CpDigits, MatchAt, ParsePython;
    var r2 := PLATFORM + "\n";
    var r1 := "-cp" + ("39" + r2);
    var tail := "-cp" + ("38" + r1);
    CpDigitsOf("38", r1);
    CpDigitsOf("39", r2);
    assert MatchTail(tail) == Some("38");
    MatchParts("2", tail);
    assert "ray-" + ("2" + tail) == "ray-2-cp38-cp39" + (PLATFORM + "\n");
    ParsePrintedPython(Python(3, 8));
    assert PythonStr(Python(3, 8)) == "38";
  }

  lemma OddNameParsed()
    ensures ParseFilename("ray-2-cp38-cp38m" + PLATFORM) == Parsed(Some("2"), Some(Python(3, 8)))
  {
    hide CpDigits, MatchAt, ParsePython;
    var r2 := "m" + PLATFORM;
    var r1 := "-cp" + ("38" + r2);
    var tail := "-cp" + ("38" + r1);
    CpDigitsOf("38", r1);
    CpDigitsOf("38", r2);
    assert r2[1..] == PLATFORM;
    assert MatchTail(tail) == Some("38");
    MatchParts("2", tail);
    assert "ray-" + ("2" + tail) == "ray-2-cp38-cp38m" + PLATFORM;
    ParsePrintedPython(Python(3, 8));
    assert PythonStr(Python(3, 8)) == "38";
  }

  /** Without the ABI tag, the character before the platform is a digit. */
  lemma PlainTail(py: Python)
    requires py.minor > 7
    ensures |Tail(py)| >= 26 && IsDigit(Tail(py)[|Tail(py)| - 26])
  {
    DecimalValue(py.major);
    DecimalValue(py.minor);
    hide Decimal;
    var digits := PythonStr(py);
    var front := "-cp" + (digits + "-cp");
    assert IsDigit(digits[|digits| - 1]);
    assert Tail(py) == (front + digits) + PLATFORM;
    assert (front + digits)[|front + digits| - 1] == digits[|digits| - 1];
  }

  lemma NoPlainTail(url: string, py: Python)
    requires py.minor > 7 && |url| >= 26 && url[|url| - 26] == 'm'
    ensures !EndsWith(url, Tail(py))
  {
    PlainTail(py);
    hide Tail;
    var tail := Tail(py);
    if |tail| <= |url| {
      assert url[|url| - |tail|..][|tail| - 26] == url[|url| - 26];
    }
  }

  lemma RewriteAtEnd(url: string, from: string, to: string)
    requires Tagged(from) && EndsWith(url, from)
    ensures EndsWith(ReplaceAll(url, from, to), to)
  {
    var prefix := url[..|url| - |from|];
    assert url == prefix + from;
    ReplaceAtEnd(prefix, from, to);
  }

  /** A URL that matches or names no wheel is left alone. */
  lemma RewriteKeeps(url: string, py: Python)
    ensures Matches(url, py) || ParseFilename(url).version.None? ==> Rewrite(url, py) == url
  {
  }

  /** A URL that ends in a printed name, which occurs nowhere before, is changed in that name and nowhere else. */
  lemma RewriteInPlace(prefix: string, version: string, from: Python, to: Python)
    requires IsVersion(version)
    requires from.major < 10 && from.minor < 100 && to.major < 10 && to.minor < 100
    requires forall j: nat :: j < |prefix| ==> !OccursAt(prefix + Filename(version, from), Filename(version, from), j)
    ensures Rewrite(prefix + Filename(version, from), to) == prefix + Filename(version, to)
  {
    hide ParseFilename, Tail, EndsWith, OccursAt, ReplaceAll;
    var name, url := Filename(version, from), prefix + Filename(version, from);
    RoundTrip(prefix, version, from);
    NameTagged(version, from);
    ExpectedTail(to);
    if Matches(url, to) {
      SuffixOf(prefix, name);
      NameEndsInTail(version, from);
      EndsWithTransitive(url, name, Tail(from));
      SameTail(url, from, to);
    } else {
      hide Filename;
      assert name + "" == name;
      ReplaceFirst(prefix, name, "", Filename(version, to));
      ReplaceEmpty(name, Filename(version, to));
      assert Filename(version, to) + "" == Filename(version, to);
    }
  }

  lemma ReplaceEmpty(from: string, to: string)
    requires from != ""
    ensures ReplaceAll("", from, to) == ""
  {
  }

  /** Two tails of one text are equal. */
  lemma TailsAgree(url: string, a: Python, b: Python)
    requires EndsWith(url, Tail(a)) && EndsWith(url, Tail(b)) && Dashes(Tail(a)) == Dashes(Tail(b)) == 3
    requires |Tail(a)| <= |Tail(b)|
    ensures Tail(a) == Tail(b)
  {
    var more := Tail(b)[..|Tail(b)| - |Tail(a)|];
    assert Tail(b)[0] == '-';
    hide Tail;
    assert Tail(b) == more + Tail(a);
    DashesAppend(more, Tail(a));
    if more != "" {
      DashAt(more, 0);
    }
  }

  /** Rewriting a URL that ends in a printed name: the result names the requested Python version and
      the same ray version, and rewriting it again changes nothing. */
  lemma RewriteCanonical(prefix: string, version: string, from: Python, to: Python)
    requires IsVersion(version)
    requires from.major < 10 && from.minor < 100 && to.major < 10 && to.minor < 100
    ensures var url := Rewrite(prefix + Filename(version, from), to);
      && Matches(url, to)
      && ParseFilename(url) == Parsed(Some(version), Some(to))
      && Rewrite(url, to) == url
  {
    hide ParseFilename, Tail, Tagged, EndsWith;
    var url := prefix + Filename(version, from);
    ExpectedTail(to);
    RoundTrip(prefix, version, from);
    NameTagged(version, from);
    NameEndsInTail(version, from);
    SuffixOf(prefix, Filename(version, from));
    RewriteMatches(url, to);
    if Matches(url, to) {
      EndsWithTransitive(url, Filename(version, from), Tail(from));
      SameTail(url, from, to);
    } else {
      var name := Filename(version, to);
      RewriteAtEnd(url, Filename(version, from), name);
      var front := SplitEnd(Rewrite(url, to), name);
      RoundTrip(front, version, to);
    }
  }

  lemma SuffixOf(a: string, b: string)
    ensures EndsWith(a + b, b)
  {
  }

  lemma SplitEnd(s: string, t: string) returns (front: string)
    requires EndsWith(s, t)
    ensures s == front + t
  {
    front := s[..|s| - |t|];
  }

  /** A URL matches at most one Python version that fits in three digits. */
  lemma SameTail(url: string, a: Python, b: Python)
    requires EndsWith(url, Tail(a)) && EndsWith(url, Tail(b))
    requires a.major < 10 && a.minor < 100 && b.major < 10 && b.minor < 100
    ensures a == b
  {
    hide Tail, MatchTail, PythonStr, ParsePython, EndsWith;
    MatchTailOf(a);
    MatchTailOf(b);
    MatchTailDashes(Tail(a));
    MatchTailDashes(Tail(b));
    if |Tail(a)| <= |Tail(b)| {
      TailsAgree(url, a, b);
    } else {
      TailsAgree(url, b, a);
    }
    ParsePrintedPython(a);
    ParsePrintedPython(b);
  }
}
