/** The one-pass rewriter of ci/run/bazel.py that turns textproto, printed line by line, into JSON
    arrays, and what it makes of a printed forest of messages. Texts are sequences of characters
    that stand for bytes. */
module Textproto {
  import opened Options
  import opened Texts
  import Json

  // Character classes of the three line patterns, as they apply to bytes.

  predicate IsBlank(c: char) {
    c == ' ' || c == '\t' || c == '\n' || c == '\r' || c == '\U{0B}' || c == '\U{0C}'
  }

  predicate IsKeyChar(c: char) {
    'a' <= c <= 'z' || 'A' <= c <= 'Z' || '0' <= c <= '9' || c == '_' || c == '-'
  }

  predicate IsOpenKeyChar(c: char) {
    IsKeyChar(c) || c == ':'
  }

  predicate IsLineBreak(c: char) {
    c == '\r' || c == '\n'
  }

  predicate Unbroken(s: string) {
    forall i :: 0 <= i < |s| ==> !IsLineBreak(s[i])
  }

  predicate EndsWith(s: string, c: char) {
    s != "" && s[|s| - 1] == c
  }

  /** The part of a line before its first line break. The rest is kept as the line's tail. */
  function LineLength(s: string): (n: nat)
    ensures n <= |s|
  {
    Run(c => !IsLineBreak(c), s)
  }

  /** Rewrites "key {" as the start of a pair whose second element is an array. */
  function OpenSub(line: string): string {
    var a := Run(IsBlank, line);
    var r := line[a..];
    var k := Run(IsOpenKeyChar, r);
    var t := r[k..];
    var g := Run(IsBlank, t);
    if k > 0 && t[g..] == "{" then Opening(line[..a], r[..k], t[..g]) else line
  }

  function Quoted(key: string): string {
    "\"" + key + "\""
  }

  /** An opening bracket, a quoted key and a comma. */
  function Pair(key: string): string {
    "[" + Quoted(key) + ","
  }

  function Opening(space: string, key: string, gap: string): string {
    space + (Pair(key) + (gap + "["))
  }

  /** Rewrites a closing brace at the end of a line. */
  function CloseSub(line: string): string {
    if EndsWith(line, '}') then line[..|line| - 1] + "]" else line
  }

  /** Rewrites a key and its value as a pair. A quoted value goes through the encoder. */
  function Format(space: string, key: string, value: string, enc: string -> string): string {
    space + (Pair(key) + (" " + (Encoded(value, enc) + "]")))
  }

  function Encoded(value: string, enc: string -> string): string {
    if value != "" && value[0] == '"' then enc(value) else value
  }

  /** Rewrites "key: value". */
  function FieldSub(line: string, enc: string -> string): string {
    var a := Run(IsBlank, line);
    var r := line[a..];
    var k := Run(IsKeyChar, r);
    if k > 0 && ": " <= r[k..] then Format(line[..a], r[..k], r[k..][2..], enc) else line
  }

  /** What one line contributes: its rewritten text, whether it ended in a brace, whether it
      closes a top-level item, whether a separator is due after it, and its line break. */
  datatype Row = Row(text: string, brace: bool, top: bool, comma: bool, tail: string)

  function Rewrite(full: string, enc: string -> string): Row {
    var n := LineLength(full);
    var line := full[..n];
    var begun := OpenSub(line);
    var text := FieldSub(CloseSub(begun), enc);
    Row(text, EndsWith(begun, '}'), line == "}",
        line != "}" && (EndsWith(text, ']') || EndsWith(text, '"')), full[n..])
  }

  /** What the loop remembers: the items yielded, the text of the current item and whether any
      was written, whether a separator is due, and the tail of the line before. */
  datatype State = State(items: seq<string>, out: string, pending: bool, comma: bool, tail: string)

  function Advance(st: State, row: Row): State {
    var separator := if !st.comma then "" else if row.brace then "]" else ",";
    var out := st.out + separator + (st.tail + row.text);
    if row.top then State(st.items + [out], "", false, row.comma, row.tail)
    else State(st.items, out, true, row.comma, row.tail)
  }

  function RewriteAll(lines: seq<string>, enc: string -> string): seq<Row> {
    if lines == [] then [] else [Rewrite(lines[0], enc)] + RewriteAll(lines[1..], enc)
  }

  function AdvanceAll(st: State, rows: seq<Row>): State
    decreases |rows|
  {
    if rows == [] then st else AdvanceAll(Advance(st, rows[0]), rows[1..])
  }

  const START := State([], "", false, false, "")

  function Flush(st: State): seq<string> {
    if st.pending then st.items + [st.out] else st.items
  }

  /** The items that the rewriter yields. */
  function Split(lines: seq<string>, enc: string -> string): seq<string> {
    Flush(AdvanceAll(START, RewriteAll(lines, enc)))
  }

  function Join(parts: seq<string>): string {
    if parts == [] then "" else Join(parts[..|parts| - 1]) + parts[|parts| - 1]
  }

  /** The loop of the source, with its list of output pieces, computes Split. */
  method TextprotoSplit(lines: seq<string>, enc: string -> string) returns (items: seq<string>)
    ensures items == Split(lines, enc)
  {
    items := [];
    var outputs: seq<string> := [];
    var prevComma, prevTail := false, "";
    for i := 0 to |lines|
      invariant AdvanceAll(START, RewriteAll(lines, enc))
             == AdvanceAll(State(items, Join(outputs), outputs != [], prevComma, prevTail), RewriteAll(lines[i..], enc))
    {
      var n := LineLength(lines[i]);
      var line, tail := lines[i][..n], lines[i][n..];
      var next := OpenSub(line);
      var separator := if !prevComma then "" else if EndsWith(next, '}') then "]" else ",";
      next := FieldSub(CloseSub(next), enc);
      JoinTwo(outputs, separator, prevTail + next);
      outputs := outputs + [separator] + [prevTail + next];
      if line == "}" {
        items := items + [Join(outputs)];
        outputs := [];
      }
      prevComma := line != "}" && (EndsWith(next, ']') || EndsWith(next, '"'));
      prevTail := tail;
      assert lines[i..][1..] == lines[i + 1..];
      assert RewriteAll(lines[i..], enc)[1..] == RewriteAll(lines[i + 1..], enc);
    }
    if outputs != [] {
      items := items + [Join(outputs)];
    }
  }

  lemma JoinTwo(parts: seq<string>, a: string, b: string)
    ensures Join(parts + [a] + [b]) == Join(parts) + a + b
  {
    assert (parts + [a])[..|parts|] == parts;
    assert (parts + [a] + [b])[..|parts| + 1] == parts + [a];
  }

  // Printed forests. Every node carries the layout of its own lines.

  datatype Node =
    | Field(space: string, key: string, value: string)
    | Message(space: string, key: string, gap: string, children: seq<Node>, closeSpace: string)

  predicate IsIndent(s: string) {
    forall i :: 0 <= i < |s| ==> s[i] == ' ' || s[i] == '\t'
  }

  /** A quoted value that is encoded as a JSON string, or a word such as a number or the name of an enum value. */
  predicate ScalarOk(value: string, enc: string -> string) {
    && value != ""
    && Unbroken(value)
    && !EndsWith(value, '}')
    && (if value[0] == '"' then Json.IsString(enc(value)) else Json.IsWord(value))
  }

  /** A value that JSON has no form for: a word that is no number or literal name. */
  predicate IsName(value: string) {
    value != "" && value[0] != '"' && !Json.IsLiteral(value)
  }

  /** The neat line-by-line format: blanks around keys, and below the top level an indented
      closing brace. */
  predicate Neat(n: Node, nested: bool, enc: string -> string)
    decreases n, 1
  {
    match n
    case Field(space, key, value) =>
      nested && IsIndent(space) && key != "" && All(IsKeyChar, key) && ScalarOk(value, enc)
    case Message(space, key, gap, children, closeSpace) =>
      && IsIndent(space) && IsIndent(gap) && IsIndent(closeSpace)
      && key != "" && All(IsOpenKeyChar, key)
      && (nested <==> closeSpace != "")
      && NeatAll(children, true, enc)
  }

  predicate NeatAll(ns: seq<Node>, nested: bool, enc: string -> string)
    decreases ns, 0
  {
    ns != [] ==> Neat(ns[0], nested, enc) && NeatAll(ns[1..], nested, enc)
  }

  predicate IsEol(eol: string) {
    eol != "" && IsLineBreak(eol[0]) && All(Json.IsSpace, eol)
  }

  function Print(n: Node, eol: string): seq<string>
    decreases n, 1
  {
    match n
    case Field(space, key, value) => [space + (key + (": " + value)) + eol]
    case Message(space, key, gap, children, closeSpace) =>
      [space + (key + (gap + "{")) + eol] + (PrintAll(children, eol) + [closeSpace + "}" + eol])
  }

  function PrintAll(ns: seq<Node>, eol: string): seq<string>
    decreases ns, 0
  {
    if ns == [] then [] else Print(ns[0], eol) + PrintAll(ns[1..], eol)
  }

  /** The text that stands for a node in the output. A message without children lacks one of its
      two closing brackets. */
  function Render(n: Node, eol: string, enc: string -> string): string
    decreases n, 1
  {
    match n
    case Field(space, key, value) => Format(space, key, value, enc)
    case Message(space, key, gap, children, closeSpace) =>
      Opening(space, key, gap) + RenderAll(children, false, eol, enc)
      + ((if children == [] then "" else "]") + (eol + closeSpace + "]"))
  }

  function RenderAll(ns: seq<Node>, comma: bool, eol: string, enc: string -> string): string
    decreases ns, 0
  {
    if ns == [] then ""
    else (if comma then "," else "") + (eol + Render(ns[0], eol, enc)) + RenderAll(ns[1..], true, eol, enc)
  }

  /** The value that a node stands for: a key paired with a scalar or with its children. */
  function ToJson(n: Node, enc: string -> string): Json.Value
    decreases n, 1
  {
    match n
    case Field(_, key, value) =>
      Json.Array([Json.Scalar(KeyToken(key)), Json.Scalar(ValueToken(value, enc))])
    case Message(_, key, _, children, _) =>
      Json.Array([Json.Scalar(KeyToken(key)), Json.Array(ToJsonAll(children, enc))])
  }

  function ToJsonAll(ns: seq<Node>, enc: string -> string): seq<Json.Value>
    decreases ns, 0
  {
    if ns == [] then [] else [ToJson(ns[0], enc)] + ToJsonAll(ns[1..], enc)
  }

  function KeyToken(key: string): Json.Token {
    Json.Str(Quoted(key))
  }

  function ValueToken(value: string, enc: string -> string): Json.Token {
    if value != "" && value[0] == '"' then Json.Str(enc(value)) else Json.Lit(value)
  }

  /** The number of message blocks without any content. */
  function EmptyBlocks(n: Node): nat
    decreases n, 1
  {
    match n
    case Field(_, _, _) => 0
    case Message(_, _, _, children, _) => if children == [] then 1 else EmptyBlocksAll(children)
  }

  function EmptyBlocksAll(ns: seq<Node>): nat
    decreases ns, 0
  {
    if ns == [] then 0 else EmptyBlocks(ns[0]) + EmptyBlocksAll(ns[1..])
  }

  /** The number of values that JSON has no form for. */
  function Names(n: Node): nat
    decreases n, 1
  {
    match n
    case Field(_, _, value) => if IsName(value) then 1 else 0
    case Message(_, _, _, children, _) => NamesAll(children)
  }

  function NamesAll(ns: seq<Node>): nat
    decreases ns, 0
  {
    if ns == [] then 0 else Names(ns[0]) + NamesAll(ns[1..])
  }

  // What the rewriter does to each kind of printed line.

  lemma SplitsAtEol(line: string, eol: string)
    requires Unbroken(line) && IsEol(eol)
    ensures LineLength(line + eol) == |line|
    ensures (line + eol)[..|line|] == line && (line + eol)[|line|..] == eol
  {
    RunSplit(c => !IsLineBreak(c), line, eol);
  }

  lemma OpeningUnbroken(space: string, key: string, gap: string)
    requires IsIndent(space) && IsIndent(gap) && All(IsOpenKeyChar, key)
    ensures Unbroken(space + (key + (gap + "{")))
    ensures !EndsWith(space + (key + (gap + "{")), '}')
    ensures !EndsWith(Opening(space, key, gap), '}')
    ensures !EndsWith(Opening(space, key, gap), ']') && !EndsWith(Opening(space, key, gap), '"')
  {
  }

  lemma CloseUnbroken(space: string)
    requires IsIndent(space)
    ensures Unbroken(space + "}") && EndsWith(space + "}", '}') && EndsWith(space + "]", ']')
    ensures space + "}" == "}" <==> space == ""
  {
    assert |space + "}"| == |space| + 1;
  }

  lemma ScalarStart(value: string, enc: string -> string)
    requires ScalarOk(value, enc)
    ensures !LoneBrace(value)
  {
    assert Json.IsWord(value) ==> Json.IsLitChar(value[0]) || value[0] == '_';
    RunSplit(IsBlank, "", value);
    assert "" + value == value && value[0..] == value;
  }

  lemma FieldUnbroken(space: string, key: string, value: string)
    requires IsIndent(space) && All(IsKeyChar, key) && Unbroken(value) && !EndsWith(value, '}')
    ensures Unbroken(space + (key + (": " + value)))
    ensures !EndsWith(space + (key + (": " + value)), '}')
  {
  }

  lemma OpenLine(space: string, key: string, gap: string)
    requires IsIndent(space) && IsIndent(gap) && key != "" && All(IsOpenKeyChar, key)
    ensures OpenSub(space + (key + (gap + "{"))) == Opening(space, key, gap)
  {
    OpenParts(space, key, gap, "{");
  }

  /** How the opening pattern divides any line: blanks, a key, blanks, and the rest. It rewrites the line exactly
      when there is a key and the rest is an opening brace. */
  lemma OpenParts(space: string, key: string, gap: string, rest: string)
    requires All(IsBlank, space) && All(IsOpenKeyChar, key) && All(IsBlank, gap) && (key == "" ==> gap == "")
    requires rest != "" ==> !IsBlank(rest[0]) && (gap == "" ==> !IsOpenKeyChar(rest[0]))
    ensures var line := space + (key + (gap + rest));
      OpenSub(line) == if key != "" && rest == "{" then Opening(space, key, gap) else line
  {
    hide Opening;
    RunSplit(IsBlank, space, key + (gap + rest));
    RunSplit(IsOpenKeyChar, key, gap + rest);
    RunSplit(IsBlank, gap, rest);
  }

  lemma OpeningIsKept(space: string, key: string, gap: string, enc: string -> string)
    requires IsIndent(space)
    ensures CloseSub(Opening(space, key, gap)) == Opening(space, key, gap)
    ensures FieldSub(Opening(space, key, gap), enc) == Opening(space, key, gap)
  {
    NotAField(space, Pair(key) + (gap + "["), enc);
  }

  lemma NotAField(space: string, rest: string, enc: string -> string)
    requires IsIndent(space)
    requires rest != "" && !IsBlank(rest[0]) && !IsKeyChar(rest[0])
    ensures FieldSub(space + rest, enc) == space + rest
  {
    RunSplit(IsBlank, space, rest);
  }

  lemma CloseLine(space: string, enc: string -> string)
    requires IsIndent(space)
    ensures OpenSub(space + "}") == space + "}"
    ensures FieldSub(CloseSub(space + "}"), enc) == space + "]"
  {
    RunSplit(IsBlank, space, "}");
    NotAField(space, "]", enc);
  }

  lemma FieldIsNotOpening(space: string, key: string, value: string)
    requires IsIndent(space) && key != "" && All(IsKeyChar, key) && !LoneBrace(value)
    ensures var line := space + (key + (": " + value)); OpenSub(line) == line
  {
    hide OpenSub;
    var g := Run(IsBlank, value);
    OpenParts(space, key + ":", " " + value[..g], value[g..]);
    assert key + (": " + value) == (key + ":") + ((" " + value[..g]) + value[g..]);
  }

  /** Blanks and an opening brace: with the colon as part of its key, such a field opens a block. */
  predicate LoneBrace(value: string) {
    value[Run(IsBlank, value)..] == "{"
  }

  lemma FieldLine(space: string, key: string, value: string, enc: string -> string)
    requires IsIndent(space) && key != "" && All(IsKeyChar, key) && !EndsWith(value, '}')
    ensures var line := space + (key + (": " + value));
      CloseSub(line) == line && FieldSub(line, enc) == Format(space, key, value, enc)
  {
    var line := space + (key + (": " + value));
    assert CloseSub(line) == line by { assert !EndsWith(line, '}'); }
    hide Format, CloseSub, EndsWith;
    RunSplit(IsBlank, space, key + (": " + value));
    RunSplit(IsKeyChar, key, ": " + value);
    assert (": " + value)[2..] == value;
  }

  /** How the field pattern divides any line: blanks, a key, and the rest. It rewrites the line exactly when there is
      a key and the rest starts with a colon and a blank. */
  lemma FieldParts(space: string, key: string, rest: string, enc: string -> string)
    requires All(IsBlank, space) && All(IsKeyChar, key)
    requires rest != "" ==> !IsKeyChar(rest[0]) && (key == "" ==> !IsBlank(rest[0]))
    ensures var line := space + (key + rest);
      FieldSub(line, enc) == if key != "" && ": " <= rest then Format(space, key, rest[2..], enc) else line
  {
    hide Format;
    RunSplit(IsBlank, space, key + rest);
    RunSplit(IsKeyChar, key, rest);
  }

  // The rows of a printed node.

  function OpenRow(space: string, key: string, gap: string, eol: string): Row {
    Row(Opening(space, key, gap), false, false, false, eol)
  }

  function FieldRow(space: string, key: string, value: string, eol: string, enc: string -> string): Row {
    Row(Format(space, key, value, enc), false, false, true, eol)
  }

  function CloseRow(space: string, eol: string): Row {
    Row(space + "]", true, space == "", space != "", eol)
  }

  function Rows(n: Node, eol: string, enc: string -> string): seq<Row>
    decreases n, 1
  {
    match n
    case Field(space, key, value) => [FieldRow(space, key, value, eol, enc)]
    case Message(space, key, gap, children, closeSpace) =>
      [OpenRow(space, key, gap, eol)] + (RowsAll(children, eol, enc) + [CloseRow(closeSpace, eol)])
  }

  function RowsAll(ns: seq<Node>, eol: string, enc: string -> string): seq<Row>
    decreases ns, 0
  {
    if ns == [] then [] else Rows(ns[0], eol, enc) + RowsAll(ns[1..], eol, enc)
  }

  /** Rewriting a line whose substitutions are known. */
  lemma RewriteLine(line: string, eol: string, begun: string, text: string, enc: string -> string)
    requires Unbroken(line) && IsEol(eol)
    requires OpenSub(line) == begun && FieldSub(CloseSub(begun), enc) == text
    ensures Rewrite(line + eol, enc)
         == Row(text, EndsWith(begun, '}'), line == "}",
                line != "}" && (EndsWith(text, ']') || EndsWith(text, '"')), eol)
  {
    SplitsAtEol(line, eol);
  }

  lemma RewriteOpen(space: string, key: string, gap: string, eol: string, enc: string -> string)
    requires IsIndent(space) && IsIndent(gap) && key != "" && All(IsOpenKeyChar, key) && IsEol(eol)
    ensures Rewrite(space + (key + (gap + "{")) + eol, enc) == OpenRow(space, key, gap, eol)
  {
    var line := space + (key + (gap + "{"));
    var begun := Opening(space, key, gap);
    assert OpenSub(line) == begun by { OpenLine(space, key, gap); }
    assert CloseSub(begun) == begun && FieldSub(begun, enc) == begun by { OpeningIsKept(space, key, gap, enc); }
    OpeningUnbroken(space, key, gap);
    RewriteLine(line, eol, begun, begun, enc);
  }

  lemma RewriteField(space: string, key: string, value: string, eol: string, enc: string -> string)
    requires IsIndent(space) && key != "" && All(IsKeyChar, key) && IsEol(eol)
    requires Unbroken(value) && !LoneBrace(value) && !EndsWith(value, '}')
    ensures Rewrite(space + (key + (": " + value)) + eol, enc) == FieldRow(space, key, value, eol, enc)
  {
    var line := space + (key + (": " + value));
    var text := Format(space, key, value, enc);
    assert OpenSub(line) == line by { FieldIsNotOpening(space, key, value); }
    assert CloseSub(line) == line && FieldSub(line, enc) == text by { FieldLine(space, key, value, enc); }
    FieldUnbroken(space, key, value);
    RewriteLine(line, eol, line, text, enc);
    assert EndsWith(text, ']');
  }

  /** What becomes of a field whose value ends in a brace: the brace is replaced before the pair is formed,
      and the row closes the block before it instead of adding to it. */
  function BraceRow(space: string, key: string, value: string, eol: string, enc: string -> string): Row
    requires value != ""
  {
    Row(Format(space, key, value[..|value| - 1] + "]", enc), true, false, true, eol)
  }

  /** A field line is rewritten as its pair exactly when its value does not end in a brace: such a value
      is taken for the end of a block. */
  lemma FieldRewriteExact(space: string, key: string, value: string, eol: string, enc: string -> string)
    requires IsIndent(space) && key != "" && All(IsKeyChar, key) && IsEol(eol)
    requires Unbroken(value) && !LoneBrace(value)
    ensures var row := Rewrite(space + (key + (": " + value)) + eol, enc);
      && (row == FieldRow(space, key, value, eol, enc) <==> !EndsWith(value, '}'))
      && (EndsWith(value, '}') ==> row == BraceRow(space, key, value, eol, enc))
  {
    hide *;
    assert EndsWith(value, '}') ==> value != "" by { EndsNonEmpty(value, '}'); }
    if EndsWith(value, '}') {
      RewriteBrace(space, key, value, eol, enc);
      RowsDiffer(space, key, value, eol, enc);
    } else {
      RewriteField(space, key, value, eol, enc);
    }
  }

  lemma EndsNonEmpty(s: string, c: char)
    ensures EndsWith(s, c) ==> s != ""
  {
  }

  lemma RewriteBrace(space: string, key: string, value: string, eol: string, enc: string -> string)
    requires IsIndent(space) && key != "" && All(IsKeyChar, key) && IsEol(eol)
    requires Unbroken(value) && !LoneBrace(value) && EndsWith(value, '}')
    ensures Rewrite(space + (key + (": " + value)) + eol, enc) == BraceRow(space, key, value, eol, enc)
  {
    hide FieldSub, OpenSub, Rewrite;
    var line, cut := space + (key + (": " + value)), value[..|value| - 1] + "]";
    var text := Format(space, key, cut, enc);
    assert OpenSub(line) == line by { FieldIsNotOpening(space, key, value); }
    BraceLine(space, key, value);
    assert FieldSub(CloseSub(line), enc) == text by { FieldLine(space, key, cut, enc); }
    RewriteLine(line, eol, line, text, enc);
    assert EndsWith(text, ']');
    assert |line| > 1;
  }

  lemma RowsDiffer(space: string, key: string, value: string, eol: string, enc: string -> string)
    requires value != ""
    ensures BraceRow(space, key, value, eol, enc) != FieldRow(space, key, value, eol, enc)
  {
  }

  lemma BraceLine(space: string, key: string, value: string)
    requires IsIndent(space) && All(IsKeyChar, key) && Unbroken(value) && EndsWith(value, '}')
    ensures Unbroken(space + (key + (": " + value))) && EndsWith(space + (key + (": " + value)), '}')
    ensures CloseSub(space + (key + (": " + value))) == space + (key + (": " + (value[..|value| - 1] + "]")))
  {
  }

  lemma RewriteClose(space: string, eol: string, enc: string -> string)
    requires IsIndent(space) && IsEol(eol)
    ensures Rewrite(space + "}" + eol, enc) == CloseRow(space, eol)
  {
    var line := space + "}";
    CloseUnbroken(space);
    assert OpenSub(line) == line && FieldSub(CloseSub(line), enc) == space + "]" by { CloseLine(space, enc); }
    RewriteLine(line, eol, line, space + "]", enc);
  }

  lemma {:induction false} RewriteAllAppend(xs: seq<string>, ys: seq<string>, enc: string -> string)
    ensures RewriteAll(xs + ys, enc) == RewriteAll(xs, enc) + RewriteAll(ys, enc)
  {
    hide Rewrite;
    if xs == [] {
      assert xs + ys == ys;
    } else {
      assert (xs + ys)[1..] == xs[1..] + ys;
      RewriteAllAppend(xs[1..], ys, enc);
    }
  }

  lemma {:induction false} RewritePrinted(n: Node, nested: bool, eol: string, enc: string -> string)
    requires Neat(n, nested, enc) && IsEol(eol)
    ensures RewriteAll(Print(n, eol), enc) == Rows(n, eol, enc)
    decreases n, 1
  {
    hide Rewrite;
    match n
    case Field(space, key, value) =>
      ScalarStart(value, enc);
      RewriteField(space, key, value, eol, enc);
    case Message(space, key, gap, children, closeSpace) =>
      RewriteOpen(space, key, gap, eol, enc);
      RewriteClose(closeSpace, eol, enc);
      RewriteAllPrinted(children, true, eol, enc);
      RewriteBlock(space + (key + (gap + "{")) + eol, PrintAll(children, eol), closeSpace + "}" + eol, enc);
  }

  lemma RewriteBlock(first: string, body: seq<string>, last: string, enc: string -> string)
    ensures RewriteAll([first] + (body + [last]), enc)
         == [Rewrite(first, enc)] + (RewriteAll(body, enc) + [Rewrite(last, enc)])
  {
    var lines := [first] + (body + [last]);
    assert lines[1..] == body + [last];
    RewriteAllAppend(body, [last], enc);
    assert RewriteAll([last], enc) == [Rewrite(last, enc)];
  }

  lemma {:induction false} RewriteAllPrinted(ns: seq<Node>, nested: bool, eol: string, enc: string -> string)
    requires NeatAll(ns, nested, enc) && IsEol(eol)
    ensures RewriteAll(PrintAll(ns, eol), enc) == RowsAll(ns, eol, enc)
    decreases ns, 0
  {
    if ns != [] {
      RewritePrinted(ns[0], nested, eol, enc);
      RewriteAllPrinted(ns[1..], nested, eol, enc);
      RewriteAllAppend(Print(ns[0], eol), PrintAll(ns[1..], eol), enc);
    }
  }

  // How the rows of a node change the state of the loop.

  lemma {:induction false} AdvanceAllAppend(st: State, xs: seq<Row>, ys: seq<Row>)
    ensures AdvanceAll(st, xs + ys) == AdvanceAll(AdvanceAll(st, xs), ys)
    decreases |xs|
  {
    if xs == [] {
      assert xs + ys == ys;
    } else {
      assert (xs + ys)[1..] == xs[1..] + ys;
      AdvanceAllAppend(Advance(st, xs[0]), xs[1..], ys);
    }
  }

  function Separator(comma: bool): string {
    if comma then "," else ""
  }

  /** The state after a node: its rendering is appended, and a top-level node is yielded. */
  function AfterNode(st: State, text: string, nested: bool, eol: string): State {
    var out := st.out + Separator(st.comma) + (st.tail + text);
    if nested then State(st.items, out, true, true, eol)
    else State(st.items + [out], "", false, false, eol)
  }

  lemma Regroup(a: string, tail: string, open: string, all: string, bracket: string, close: string)
    ensures a + (tail + open) + all + bracket + close == a + (tail + (open + all + (bracket + close)))
  {
  }

  lemma {:induction false} AdvanceNode(st: State, n: Node, nested: bool, eol: string, enc: string -> string)
    requires Neat(n, nested, enc)
    ensures AdvanceAll(st, Rows(n, eol, enc)) == AfterNode(st, Render(n, eol, enc), nested, eol)
    decreases n, 1
  {
    match n
    case Field(_, _, _) =>
    case Message(space, key, gap, children, closeSpace) =>
      var first, last := OpenRow(space, key, gap, eol), CloseRow(closeSpace, eol);
      var rows := RowsAll(children, eol, enc);
      var st1 := Advance(st, first);
      AdvanceAllAppend(st1, rows, [last]);
      AdvanceChildren(st1, children, eol, enc);
      assert Rows(n, eol, enc)[1..] == rows + [last];
      var st2 := AdvanceAll(st1, rows);
      assert AdvanceAll(st2, [last]) == Advance(st2, last);
      var bracket := if children == [] then "" else "]";
      assert eol + closeSpace + "]" == eol + (closeSpace + "]");
      Regroup(st.out + Separator(st.comma), st.tail, Opening(space, key, gap),
              RenderAll(children, false, eol, enc), bracket, eol + closeSpace + "]");
  }

  lemma {:induction false} AdvanceChildren(st: State, ns: seq<Node>, eol: string, enc: string -> string)
    requires NeatAll(ns, true, enc) && st.tail == eol && st.pending
    ensures AdvanceAll(st, RowsAll(ns, eol, enc))
         == st.(out := st.out + RenderAll(ns, st.comma, eol, enc), comma := st.comma || ns != [])
    decreases ns, 0
  {
    hide Render, Rows, Neat;
    if ns == [] {
      assert st.out + "" == st.out;
    } else {
      AdvanceNode(st, ns[0], true, eol, enc);
      var text := Render(ns[0], eol, enc);
      var st1 := AfterNode(st, text, true, eol);
      AdvanceAllAppend(st, Rows(ns[0], eol, enc), RowsAll(ns[1..], eol, enc));
      AdvanceChildren(st1, ns[1..], eol, enc);
      var rest := RenderAll(ns[1..], true, eol, enc);
      assert st.out + Separator(st.comma) + (eol + text) + rest
          == st.out + (Separator(st.comma) + (eol + text) + rest);
    }
  }

  /** The items of a printed forest: the rendering of each message, after the line break that
      ends the message before. */
  function Items(forest: seq<Node>, tail: string, eol: string, enc: string -> string): seq<string> {
    if forest == [] then []
    else [tail + Render(forest[0], eol, enc)] + Items(forest[1..], eol, eol, enc)
  }

  lemma {:induction false} AdvanceForest(st: State, forest: seq<Node>, eol: string, enc: string -> string)
    requires NeatAll(forest, false, enc)
    requires st.out == "" && !st.pending && !st.comma
    ensures Flush(AdvanceAll(st, RowsAll(forest, eol, enc))) == st.items + Items(forest, st.tail, eol, enc)
    decreases forest
  {
    hide Render, Rows;
    if forest != [] {
      AdvanceNode(st, forest[0], false, eol, enc);
      var item := st.tail + Render(forest[0], eol, enc);
      var st1 := AfterNode(st, Render(forest[0], eol, enc), false, eol);
      assert st1.items == st.items + [item] by {
        assert "" + "" + item == item;
      }
      AdvanceAllAppend(st, Rows(forest[0], eol, enc), RowsAll(forest[1..], eol, enc));
      AdvanceForest(st1, forest[1..], eol, enc);
    }
  }

  /** One item per top-level message, each the recursive rendering of its tree, whether or not the last line
      ends in a line break. */
  lemma SplitPrintedForest(forest: seq<Node>, eol: string, enc: string -> string)
    requires NeatAll(forest, false, enc) && IsEol(eol)
    ensures Split(PrintAll(forest, eol), enc) == Items(forest, "", eol, enc)
    ensures Split(Unended(PrintAll(forest, eol)), enc) == Items(forest, "", eol, enc)
  {
    LastBreakIgnored(PrintAll(forest, eol), enc);
    RewriteAllPrinted(forest, false, eol, enc);
    AdvanceForest(START, forest, eol, enc);
  }

  // The line break of the last line.

  /** The lines, the last one without its line break. */
  function Unended(lines: seq<string>): seq<string> {
    if lines == [] then []
    else
      var last := lines[|lines| - 1];
      lines[..|lines| - 1] + [last[..LineLength(last)]]
  }

  lemma RewriteUnended(line: string, enc: string -> string)
    ensures Rewrite(line[..LineLength(line)], enc) == Rewrite(line, enc).(tail := "")
  {
    var n := LineLength(line);
    var cut := line[..n];
    RunSplit(c => !IsLineBreak(c), cut, "");
    assert cut + "" == cut && cut[..|cut|] == cut && cut[|cut|..] == "";
  }

  /** Whether the last line ends in a line break makes no difference, whatever the lines are. */
  lemma LastBreakIgnored(lines: seq<string>, enc: string -> string)
    ensures Split(Unended(lines), enc) == Split(lines, enc)
  {
    hide Rewrite, LineLength;
    if lines != [] {
      var n := |lines| - 1;
      var front, last := lines[..n], lines[n];
      var cut := last[..LineLength(last)];
      assert lines == front + [last];
      RewriteAllAppend(front, [last], enc);
      RewriteAllAppend(front, [cut], enc);
      RewriteUnended(last, enc);
      var st, row := AdvanceAll(START, RewriteAll(front, enc)), Rewrite(last, enc);
      RewriteOne(last, enc);
      RewriteOne(cut, enc);
      AdvanceAllAppend(START, RewriteAll(front, enc), [row]);
      AdvanceAllAppend(START, RewriteAll(front, enc), [row.(tail := "")]);
      AdvanceOne(st, row);
      AdvanceOne(st, row.(tail := ""));
    }
  }

  lemma RewriteOne(line: string, enc: string -> string)
    ensures RewriteAll([line], enc) == [Rewrite(line, enc)]
  {
    assert [line][1..] == [];
  }

  lemma AdvanceOne(st: State, row: Row)
    ensures AdvanceAll(st, [row]) == Advance(st, row)
  {
    assert [row][1..] == [];
  }

  // What holds of all lines, neat or not.

  lemma {:induction false} JoinAppend(a: seq<string>, b: seq<string>)
    ensures Join(a + b) == Join(a) + Join(b)
  {
    if b == [] {
      assert a + b == a;
    } else {
      JoinAppend(a, b[..|b| - 1]);
      assert (a + b)[..|a + b| - 1] == a + b[..|b| - 1];
    }
  }

  lemma JoinOne(x: string)
    ensures Join([x]) == x && Join([]) == ""
  {
    assert [x][..0] == [] && "" + x == x;
  }

  /** What a line adds: a separator if one is due, the line break before it, and its text. */
  function Piece(comma: bool, tail: string, row: Row): string {
    (if comma then (if row.brace then "]" else ",") else "") + (tail + row.text)
  }

  function Pieces(comma: bool, tail: string, rows: seq<Row>): seq<string>
    decreases |rows|
  {
    if rows == [] then [] else [Piece(comma, tail, rows[0])] + Pieces(rows[0].comma, rows[0].tail, rows[1..])
  }

  lemma AdvancePiece(st: State, row: Row)
    ensures var out := st.out + Piece(st.comma, st.tail, row);
      Advance(st, row) == if row.top then State(st.items + [out], "", false, row.comma, row.tail)
                          else State(st.items, out, true, row.comma, row.tail)
  {
    var mark := if st.comma then (if row.brace then "]" else ",") else "";
    assert st.out + mark + (st.tail + row.text) == st.out + (mark + (st.tail + row.text));
  }

  lemma {:induction false} AdvanceConserves(st: State, rows: seq<Row>)
    requires !st.pending ==> st.out == ""
    ensures Join(Flush(AdvanceAll(st, rows))) == Join(st.items) + (st.out + Join(Pieces(st.comma, st.tail, rows)))
    decreases |rows|
  {
    hide Join, Advance, Piece;
    if rows == [] {
      JoinAppend(st.items, [st.out]);
      JoinOne(st.out);
      assert st.out + "" == st.out && Join(st.items) + "" == Join(st.items);
    } else {
      var row := rows[0];
      var piece, more := Piece(st.comma, st.tail, row), Pieces(row.comma, row.tail, rows[1..]);
      AdvancePiece(st, row);
      AdvanceConserves(Advance(st, row), rows[1..]);
      JoinAppend([piece], more);
      JoinOne(piece);
      JoinAppend(st.items, [st.out + piece]);
      JoinOne(st.out + piece);
      GroupPiece(Join(st.items), st.out, piece, Join(more));
    }
  }

  lemma GroupPiece(items: string, out: string, piece: string, more: string)
    ensures items + (out + piece) + ("" + more) == items + (out + (piece + more))
    ensures items + (out + piece + more) == items + (out + (piece + more))
  {
    assert "" + more == more && out + piece + more == out + (piece + more);
  }

  /** Nothing is lost, whatever the lines are: the items together are what the lines add, in order. */
  lemma SplitConserves(lines: seq<string>, enc: string -> string)
    ensures Join(Split(lines, enc)) == Join(Pieces(false, "", RewriteAll(lines, enc)))
  {
    hide RewriteAll, AdvanceAll, Pieces;
    AdvanceConserves(START, RewriteAll(lines, enc));
    JoinOne("");
    assert "" + ("" + Join(Pieces(false, "", RewriteAll(lines, enc)))) == Join(Pieces(false, "", RewriteAll(lines, enc)));
  }

  /** A line that is a closing brace and nothing else, up to its line break. */
  predicate ClosesItem(line: string) {
    line == "}" || (|line| > 1 && line[0] == '}' && IsLineBreak(line[1]))
  }

  function ClosingLines(lines: seq<string>): nat {
    if lines == [] then 0 else (if ClosesItem(lines[0]) then 1 else 0) + ClosingLines(lines[1..])
  }

  /** There is one item for every line that closes one, and one more if lines follow the last of them. */
  lemma SplitCounts(lines: seq<string>, enc: string -> string)
    ensures |Split(lines, enc)| == ClosingLines(lines) + if lines != [] && !ClosesItem(lines[|lines| - 1]) then 1 else 0
  {
    AdvanceCounts(START, lines, enc);
  }

  lemma {:induction false} AdvanceCounts(st: State, lines: seq<string>, enc: string -> string)
    ensures |Flush(AdvanceAll(st, RewriteAll(lines, enc)))|
         == |st.items| + ClosingLines(lines) + if lines == [] then (if st.pending then 1 else 0)
                                               else if ClosesItem(lines[|lines| - 1]) then 0 else 1
    decreases |lines|
  {
    hide Rewrite;
    if lines != [] {
      TopRow(lines[0], enc);
      assert RewriteAll(lines, enc)[1..] == RewriteAll(lines[1..], enc);
      AdvanceCounts(Advance(st, Rewrite(lines[0], enc)), lines[1..], enc);
    }
  }

  lemma TopRow(line: string, enc: string -> string)
    ensures Rewrite(line, enc).top <==> ClosesItem(line)
  {
    hide OpenSub, CloseSub, FieldSub;
    var n := LineLength(line);
    assert line[..n] == "}" ==> n == 1 && line[0] == '}';
    if ClosesItem(line) {
      assert !IsLineBreak(line[0]);
      RunSplit(c => !IsLineBreak(c), "}", line[1..]);
      assert line == "}" + line[1..];
    }
  }

  // Reading an item back.

  function Tokens(n: Node, enc: string -> string): seq<Json.Token>
    decreases n, 1
  {
    match n
    case Field(_, key, value) =>
      PairTokens(key) + ([ValueToken(value, enc)] + [Json.RBracket])
    case Message(_, key, _, children, _) =>
      (PairTokens(key) + [Json.LBracket]) + (TokensAll(children, false, enc) + Closers(children != []))
  }

  function PairTokens(key: string): seq<Json.Token> {
    [Json.LBracket] + ([KeyToken(key)] + [Json.Comma])
  }

  function Closers(some: bool): seq<Json.Token> {
    if some then [Json.RBracket] + [Json.RBracket] else [Json.RBracket]
  }

  function TokensAll(ns: seq<Node>, comma: bool, enc: string -> string): seq<Json.Token>
    decreases ns, 0
  {
    if ns == [] then []
    else (if comma then [Json.Comma] else []) + (Tokens(ns[0], enc) + TokensAll(ns[1..], true, enc))
  }

  lemma {:induction false} PlainClosingQuote(key: string)
    requires All(IsOpenKeyChar, key)
    ensures Json.ClosingQuote(key + "\"") == Some(|key|)
  {
    if key != "" {
      assert (key + "\"")[1..] == key[1..] + "\"";
      PlainClosingQuote(key[1..]);
    }
  }

  lemma QuotedIsString(key: string)
    requires All(IsOpenKeyChar, key)
    ensures Json.IsString(Quoted(key))
  {
    PlainClosingQuote(key);
    assert Quoted(key)[1..] == key + "\"";
  }

  /** Indentation, opening bracket, key and comma lex to three tokens. */
  lemma LexPair(space: string, key: string, rest: string)
    requires IsIndent(space) && All(IsOpenKeyChar, key)
    ensures Json.Lex(space + (Pair(key) + rest))
         == Json.Prepend(PairTokens(key), Json.Lex(rest))
  {
    hide Json.Lex;
    var r1 := "," + rest;
    var r2 := Quoted(key) + r1;
    Json.LexSpaces(space, Pair(key) + rest);
    assert Pair(key) + rest == "[" + r2;
    Json.LexBracket('[', r2);
    QuotedIsString(key);
    Json.LexString(Quoted(key), r1);
    Json.LexBracket(',', rest);
    Json.PrependAssociative([KeyToken(key)], [Json.Comma], Json.Lex(rest));
    Json.PrependAssociative([Json.LBracket], [KeyToken(key)] + [Json.Comma], Json.Lex(rest));
  }

  lemma LexScalar(value: string, rest: string, enc: string -> string)
    requires ScalarOk(value, enc) && !IsName(value)
    ensures Json.Lex(" " + (Encoded(value, enc) + ("]" + rest)))
         == Json.Prepend([ValueToken(value, enc)] + [Json.RBracket], Json.Lex(rest))
  {
    var text, r := Encoded(value, enc), "]" + rest;
    Json.LexSpaces(" ", text + r);
    Json.LexBracket(']', rest);
    if value[0] == '"' {
      Json.LexString(text, r);
    } else {
      Json.LexLiteral(text, r);
    }
    Json.PrependAssociative([ValueToken(value, enc)], [Json.RBracket], Json.Lex(rest));
  }

  lemma LexFormat(space: string, key: string, value: string, rest: string, enc: string -> string)
    requires IsIndent(space) && All(IsKeyChar, key) && ScalarOk(value, enc) && !IsName(value)
    ensures Json.Lex(Format(space, key, value, enc) + rest)
         == Json.Prepend(PairTokens(key) + ([ValueToken(value, enc)] + [Json.RBracket]), Json.Lex(rest))
  {
    hide Json.Lex;
    var text := Encoded(value, enc);
    var r := " " + (text + ("]" + rest));
    assert Format(space, key, value, enc) + rest == space + (Pair(key) + r);
    LexPair(space, key, r);
    LexScalar(value, rest, enc);
    Json.PrependAssociative(PairTokens(key), [ValueToken(value, enc)] + [Json.RBracket], Json.Lex(rest));
  }

  lemma LexOpening(space: string, key: string, gap: string, rest: string)
    requires IsIndent(space) && IsIndent(gap) && All(IsOpenKeyChar, key)
    ensures Json.Lex(Opening(space, key, gap) + rest)
         == Json.Prepend(PairTokens(key) + [Json.LBracket], Json.Lex(rest))
  {
    hide Json.Lex;
    var r := gap + ("[" + rest);
    assert Opening(space, key, gap) + rest == space + (Pair(key) + r);
    LexPair(space, key, r);
    Json.LexSpaces(gap, "[" + rest);
    Json.LexBracket('[', rest);
    Json.PrependAssociative(PairTokens(key), [Json.LBracket], Json.Lex(rest));
  }

  lemma LexClosingLine(eol: string, closeSpace: string, rest: string)
    requires IsIndent(closeSpace) && All(Json.IsSpace, eol)
    ensures Json.Lex(eol + closeSpace + "]" + rest) == Json.Prepend([Json.RBracket], Json.Lex(rest))
  {
    var space := eol + closeSpace;
    assert space + "]" + rest == space + ("]" + rest);
    Json.LexSpaces(space, "]" + rest);
    Json.LexBracket(']', rest);
  }

  lemma LexClosing(some: bool, eol: string, closeSpace: string, rest: string)
    requires IsIndent(closeSpace) && All(Json.IsSpace, eol)
    ensures Json.Lex((if some then "]" else "") + (eol + closeSpace + "]") + rest)
         == Json.Prepend(Closers(some), Json.Lex(rest))
  {
    hide Json.Lex;
    var line := eol + closeSpace + "]";
    LexClosingLine(eol, closeSpace, rest);
    if some {
      assert "]" + line + rest == "]" + (line + rest);
      Json.LexBracket(']', line + rest);
      Json.PrependAssociative([Json.RBracket], [Json.RBracket], Json.Lex(rest));
    } else {
      assert "" + line + rest == line + rest;
    }
  }

  /** One element of an array: an optional comma, a line break and the element itself. */
  lemma LexElement(comma: bool, eol: string, text: string, ts: seq<Json.Token>, rest: string)
    requires All(Json.IsSpace, eol)
    requires Json.Lex(text + rest) == Json.Prepend(ts, Json.Lex(rest))
    ensures Json.Lex((if comma then "," else "") + (eol + (text + rest)))
         == Json.Prepend((if comma then [Json.Comma] else []) + ts, Json.Lex(rest))
  {
    hide Json.Lex;
    Json.LexSpaces(eol, text + rest);
    if comma {
      Json.LexBracket(',', eol + (text + rest));
      Json.PrependAssociative([Json.Comma], ts, Json.Lex(rest));
    } else {
      assert "" + (eol + (text + rest)) == eol + (text + rest);
      assert [] + ts == ts;
    }
  }

  lemma LexElements(comma: bool, eol: string, text: string, others: string, rest: string,
                    first: seq<Json.Token>, more: seq<Json.Token>)
    requires All(Json.IsSpace, eol)
    requires Json.Lex(text + (others + rest)) == Json.Prepend(first, Json.Lex(others + rest))
    requires Json.Lex(others + rest) == Json.Prepend(more, Json.Lex(rest))
    ensures Json.Lex((if comma then "," else "") + (eol + text) + others + rest)
         == Json.Prepend((if comma then [Json.Comma] else []) + (first + more), Json.Lex(rest))
  {
    hide Json.Lex;
    var mark, head := if comma then "," else "", if comma then [Json.Comma] else [];
    LexElement(comma, eol, text, first, others + rest);
    assert mark + (eol + text) + others + rest == mark + (eol + (text + (others + rest)));
    Json.PrependAssociative(head + first, more, Json.Lex(rest));
    assert head + (first + more) == head + first + more;
  }

  lemma {:induction false} LexRender(n: Node, nested: bool, eol: string, rest: string, enc: string -> string)
    requires Neat(n, nested, enc) && All(Json.IsSpace, eol) && Names(n) == 0
    ensures Json.Lex(Render(n, eol, enc) + rest) == Json.Prepend(Tokens(n, enc), Json.Lex(rest))
    decreases n, 1
  {
    hide Json.Lex;
    match n
    case Field(space, key, value) =>
      LexFormat(space, key, value, rest, enc);
    case Message(space, key, gap, children, closeSpace) =>
      var all := RenderAll(children, false, eol, enc);
      var closing := (if children != [] then "]" else "") + (eol + closeSpace + "]");
      var first, middle, last :=
        PairTokens(key) + [Json.LBracket], TokensAll(children, false, enc), Closers(children != []);
      var r1 := closing + rest;
      var r2 := all + r1;
      assert Render(n, eol, enc) + rest == Opening(space, key, gap) + r2;
      LexOpening(space, key, gap, r2);
      LexRenderAll(children, false, eol, r1, enc);
      LexClosing(children != [], eol, closeSpace, rest);
      Json.PrependAssociative(middle, last, Json.Lex(rest));
      Json.PrependAssociative(first, middle + last, Json.Lex(rest));
  }

  lemma {:induction false} LexRenderAll(ns: seq<Node>, comma: bool, eol: string, rest: string, enc: string -> string)
    requires NeatAll(ns, true, enc) && All(Json.IsSpace, eol) && NamesAll(ns) == 0
    ensures Json.Lex(RenderAll(ns, comma, eol, enc) + rest) == Json.Prepend(TokensAll(ns, comma, enc), Json.Lex(rest))
    decreases ns, 0
  {
    hide Json.Lex;
    if ns == [] {
      assert "" + rest == rest;
      assert Json.Lex(rest).Some? ==> [] + Json.Lex(rest).value == Json.Lex(rest).value;
    } else {
      var others := RenderAll(ns[1..], true, eol, enc);
      LexRender(ns[0], true, eol, others + rest, enc);
      LexRenderAll(ns[1..], true, eol, rest, enc);
      LexElements(comma, eol, Render(ns[0], eol, enc), others, rest, Tokens(ns[0], enc), TokensAll(ns[1..], true, enc));
    }
  }

  // A name makes the whole text of a node unreadable.

  lemma LexSeparated(comma: bool, eol: string, rest: string)
    requires All(Json.IsSpace, eol)
    ensures Json.Lex((if comma then "," else "") + (eol + rest))
         == Json.Prepend(if comma then [Json.Comma] else [], Json.Lex(rest))
  {
    hide Json.Lex;
    Json.LexSpaces(eol, rest);
    if comma {
      Json.LexBracket(',', eol + rest);
    } else {
      assert "" + (eol + rest) == eol + rest;
      assert Json.Lex(rest).Some? ==> [] + Json.Lex(rest).value == Json.Lex(rest).value;
    }
  }

  lemma LexName(space: string, key: string, value: string, rest: string, enc: string -> string)
    requires IsIndent(space) && All(IsKeyChar, key) && ScalarOk(value, enc) && IsName(value)
    ensures Json.Lex(Format(space, key, value, enc) + rest) == None
  {
    hide Json.Lex, Json.IsLiteral;
    var r := " " + (value + ("]" + rest));
    assert Format(space, key, value, enc) + rest == space + (Pair(key) + r);
    LexPair(space, key, r);
    Json.LexSpaces(" ", value + ("]" + rest));
    Json.LexWordFails(value, "]" + rest);
  }

  lemma {:induction false} LexNamed(n: Node, nested: bool, eol: string, rest: string, enc: string -> string)
    requires Neat(n, nested, enc) && All(Json.IsSpace, eol) && Names(n) > 0
    ensures Json.Lex(Render(n, eol, enc) + rest) == None
    decreases n, 1
  {
    hide Json.Lex;
    match n
    case Field(space, key, value) =>
      LexName(space, key, value, rest, enc);
    case Message(space, key, gap, children, closeSpace) =>
      var all := RenderAll(children, false, eol, enc);
      var r1 := (if children == [] then "" else "]") + (eol + closeSpace + "]") + rest;
      assert Render(n, eol, enc) + rest == Opening(space, key, gap) + (all + r1);
      LexOpening(space, key, gap, all + r1);
      LexNamedAll(children, false, eol, r1, enc);
  }

  lemma {:induction false} LexNamedAll(ns: seq<Node>, comma: bool, eol: string, rest: string, enc: string -> string)
    requires NeatAll(ns, true, enc) && All(Json.IsSpace, eol) && NamesAll(ns) > 0
    ensures Json.Lex(RenderAll(ns, comma, eol, enc) + rest) == None
    decreases ns, 0
  {
    hide Json.Lex, Render;
    var text, others := Render(ns[0], eol, enc), RenderAll(ns[1..], true, eol, enc);
    var mark := if comma then "," else "";
    assert mark + (eol + text) + others + rest == mark + (eol + (text + (others + rest)));
    LexSeparated(comma, eol, text + (others + rest));
    if Names(ns[0]) > 0 {
      LexNamed(ns[0], true, eol, others + rest, enc);
    } else {
      LexRender(ns[0], true, eol, others + rest, enc);
      LexNamedAll(ns[1..], true, eol, rest, enc);
    }
  }

  // Parsing the tokens of a node without empty blocks gives back its tree.

  lemma {:induction false} ParseTokens(n: Node, rest: seq<Json.Token>, enc: string -> string)
    requires EmptyBlocks(n) == 0
    ensures Json.ParseValue(Tokens(n, enc) + rest) == Some((ToJson(n, enc), rest))
    decreases n, 1
  {
    match n
    case Field(_, key, value) =>
      ParsePair(key, [ValueToken(value, enc)], Json.Scalar(ValueToken(value, enc)), rest);
      assert Tokens(n, enc) + rest == PairTokens(key) + ([ValueToken(value, enc)] + ([Json.RBracket] + rest));
    case Message(_, key, _, children, _) =>
      ParseTokensAll(children, [Json.RBracket] + rest, enc);
      TokensStart(children, enc);
      ParseMessage(key, TokensAll(children, false, enc), ToJsonAll(children, enc), rest);
  }

  /** A key paired with the elements of a non-empty array. */
  lemma ParseMessage(key: string, middle: seq<Json.Token>, vs: seq<Json.Value>, rest: seq<Json.Token>)
    requires middle != [] && middle[0] != Json.RBracket
    requires var after := [Json.RBracket] + rest;
      Json.ParseElements(middle + ([Json.RBracket] + after)) == Some((vs, after))
    ensures Json.ParseValue((PairTokens(key) + [Json.LBracket]) + (middle + Closers(true)) + rest)
         == Some((Json.Array([Json.Scalar(KeyToken(key)), Json.Array(vs)]), rest))
  {
    hide Json.ParseValue, Json.ParseElements, PairTokens;
    var r, after := [Json.RBracket], [Json.RBracket] + rest;
    var inner := [Json.LBracket] + middle + r;
    Regroup3([Json.LBracket], middle, r, after);
    ParseArray(middle + (r + after), vs, after);
    ParsePair(key, inner, Json.Array(vs), rest);
    Regroup5(PairTokens(key), [Json.LBracket], middle, r, rest);
  }

  lemma Regroup3(l: seq<Json.Token>, m: seq<Json.Token>, r: seq<Json.Token>, after: seq<Json.Token>)
    ensures (l + m + r) + after == l + (m + (r + after))
  {
  }

  lemma Regroup5(a: seq<Json.Token>, l: seq<Json.Token>, m: seq<Json.Token>, r: seq<Json.Token>, rest: seq<Json.Token>)
    ensures (a + l) + (m + (r + r)) + rest == a + ((l + m + r) + (r + rest))
  {
    var front, back := a + l + m, r + (r + rest);
    assert (a + l) + (m + (r + r)) + rest == front + back;
    assert a + ((l + m + r) + (r + rest)) == front + back;
  }

  lemma ParseArray(ts: seq<Json.Token>, vs: seq<Json.Value>, after: seq<Json.Token>)
    requires ts != [] && ts[0] != Json.RBracket && Json.ParseElements(ts) == Some((vs, after))
    ensures Json.ParseValue([Json.LBracket] + ts) == Some((Json.Array(vs), after))
  {
    hide Json.ParseElements;
    assert ([Json.LBracket] + ts)[1..] == ts;
  }

  lemma {:induction false} TokensStart(ns: seq<Node>, enc: string -> string)
    requires ns != []
    ensures TokensAll(ns, false, enc) != [] && TokensAll(ns, false, enc)[0] == Json.LBracket
  {
  }

  /** An array of a key and one more value. */
  lemma ParsePair(key: string, inner: seq<Json.Token>, v: Json.Value, rest: seq<Json.Token>)
    requires Json.ParseValue(inner + ([Json.RBracket] + rest)) == Some((v, [Json.RBracket] + rest))
    ensures Json.ParseValue(PairTokens(key) + (inner + ([Json.RBracket] + rest)))
         == Some((Json.Array([Json.Scalar(KeyToken(key)), v]), rest))
  {
    var after := inner + ([Json.RBracket] + rest);
    var ts := PairTokens(key) + after;
    var us := [KeyToken(key)] + ([Json.Comma] + after);
    assert ts[1..] == us;
    assert us[1..] == [Json.Comma] + after;
    assert ([Json.Comma] + after)[1..] == after;
    assert ([Json.RBracket] + rest)[1..] == rest;
    assert Json.ParseElements(after) == Some(([v], rest));
    assert Json.ParseValue(us) == Some((Json.Scalar(KeyToken(key)), [Json.Comma] + after));
    assert Json.ParseElements(us) == Some(([Json.Scalar(KeyToken(key))] + [v], rest));
    assert [Json.Scalar(KeyToken(key))] + [v] == [Json.Scalar(KeyToken(key)), v];
  }

  /** A further element: comma, value, more elements. */
  lemma ParseCons(first: seq<Json.Token>, v: Json.Value, more: seq<Json.Token>, vs: seq<Json.Value>, rest: seq<Json.Token>)
    requires Json.ParseValue(first + ([Json.Comma] + more)) == Some((v, [Json.Comma] + more))
    requires Json.ParseElements(more) == Some((vs, rest))
    ensures Json.ParseElements(first + ([Json.Comma] + more)) == Some(([v] + vs, rest))
  {
    assert ([Json.Comma] + more)[1..] == more;
  }

  lemma {:induction false} ParseTokensAll(ns: seq<Node>, rest: seq<Json.Token>, enc: string -> string)
    requires ns != [] && EmptyBlocksAll(ns) == 0
    ensures Json.ParseElements(TokensAll(ns, false, enc) + ([Json.RBracket] + rest)) == Some((ToJsonAll(ns, enc), rest))
    decreases ns, 0
  {
    var last := [Json.RBracket] + rest;
    var first, others := Tokens(ns[0], enc), ns[1..];
    TokensSplit(ns, last, enc);
    if others == [] {
      ParseTokens(ns[0], last, enc);
      ParseLast(first, ToJson(ns[0], enc), rest);
      assert ToJsonAll(ns, enc) == [ToJson(ns[0], enc)];
    } else {
      var more := TokensAll(others, false, enc) + last;
      ParseTokensAll(others, rest, enc);
      ParseTokens(ns[0], [Json.Comma] + more, enc);
      ParseCons(first, ToJson(ns[0], enc), more, ToJsonAll(others, enc), rest);
    }
  }

  /** The last element: value, closing bracket. */
  lemma ParseLast(first: seq<Json.Token>, v: Json.Value, rest: seq<Json.Token>)
    requires Json.ParseValue(first + ([Json.RBracket] + rest)) == Some((v, [Json.RBracket] + rest))
    ensures Json.ParseElements(first + ([Json.RBracket] + rest)) == Some(([v], rest))
  {
    assert ([Json.RBracket] + rest)[1..] == rest;
  }

  lemma {:induction false} TokensSplit(ns: seq<Node>, last: seq<Json.Token>, enc: string -> string)
    requires ns != []
    ensures TokensAll(ns, false, enc) + last
         == Tokens(ns[0], enc) + (if ns[1..] == [] then last else [Json.Comma] + (TokensAll(ns[1..], false, enc) + last))
  {
    var first, others := Tokens(ns[0], enc), ns[1..];
    var marked := TokensAll(others, true, enc);
    assert TokensAll(ns, false, enc) == first + marked by {
      assert [] + (first + marked) == first + marked;
    }
    if others != [] {
      CommaFirst(others, enc);
      var unmarked := TokensAll(others, false, enc);
      assert first + ([Json.Comma] + unmarked) + last == first + ([Json.Comma] + (unmarked + last));
    }
  }

  lemma {:induction false} CommaFirst(ns: seq<Node>, enc: string -> string)
    requires ns != []
    ensures TokensAll(ns, true, enc) == [Json.Comma] + TokensAll(ns, false, enc)
  {
  }

  // An empty block leaves one bracket open.

  lemma DepthPair(key: string)
    ensures Json.Depth(PairTokens(key)) == 1
  {
    Json.DepthAppend([KeyToken(key)], [Json.Comma]);
    Json.DepthAppend([Json.LBracket], [KeyToken(key)] + [Json.Comma]);
  }

  lemma {:induction false} TokensDepth(n: Node, enc: string -> string)
    ensures Json.Depth(Tokens(n, enc)) == EmptyBlocks(n)
    decreases n, 1
  {
    match n
    case Field(_, key, value) =>
      DepthPair(key);
      Json.DepthAppend([ValueToken(value, enc)], [Json.RBracket]);
      Json.DepthAppend(PairTokens(key), [ValueToken(value, enc)] + [Json.RBracket]);
    case Message(_, key, _, children, _) =>
      var first, middle, last :=
        PairTokens(key) + [Json.LBracket], TokensAll(children, false, enc), Closers(children != []);
      TokensDepthAll(children, false, enc);
      DepthPair(key);
      Json.DepthAppend(PairTokens(key), [Json.LBracket]);
      Json.DepthAppend([Json.RBracket], [Json.RBracket]);
      Json.DepthAppend(middle, last);
      Json.DepthAppend(first, middle + last);
  }

  lemma {:induction false} TokensDepthAll(ns: seq<Node>, comma: bool, enc: string -> string)
    ensures Json.Depth(TokensAll(ns, comma, enc)) == EmptyBlocksAll(ns)
    decreases ns, 0
  {
    if ns != [] {
      var first, more := Tokens(ns[0], enc), TokensAll(ns[1..], true, enc);
      TokensDepth(ns[0], enc);
      TokensDepthAll(ns[1..], true, enc);
      Json.DepthAppend(first, more);
      var head := if comma then [Json.Comma] else [];
      Json.DepthAppend(head, first + more);
    }
  }

  /** The tree has no empty block and no value that JSON has no form for. */
  predicate Readable(n: Node) {
    EmptyBlocks(n) == 0 && Names(n) == 0
  }

  /** An item reads back as the tree it came from exactly when no message block is empty and no value is a
      bare name; otherwise it is not JSON at all. */
  lemma ReadItem(n: Node, tail: string, eol: string, enc: string -> string)
    requires Neat(n, false, enc) && All(Json.IsSpace, tail) && IsEol(eol)
    ensures Json.Read(tail + Render(n, eol, enc)) == if Readable(n) then Some(ToJson(n, enc)) else None
  {
    var text := tail + Render(n, eol, enc);
    Json.LexSpaces(tail, Render(n, eol, enc));
    assert Render(n, eol, enc) + "" == Render(n, eol, enc);
    if Names(n) > 0 {
      LexNamed(n, false, eol, "", enc);
    } else {
      var ts := Tokens(n, enc);
      LexRender(n, false, eol, "", enc);
      assert ts + [] == ts;
      assert Json.Lex(text) == Some(ts);
      if EmptyBlocks(n) == 0 {
        ParseTokens(n, [], enc);
      } else {
        TokensDepth(n, enc);
        if Json.Read(text).Some? {
          Json.ReadBalanced(text);
        }
      }
    }
  }

  /** A message without content: neat, and its item is not JSON. */
  lemma EmptyMessageUnread(enc: string -> string)
    ensures var n := Message("", "a", " ", [], "");
      Neat(n, false, enc) && Split(PrintAll([n], "\n"), enc) == [Render(n, "\n", enc)] && Json.Read(Render(n, "\n", enc)) == None
  {
    hide *;
    var n, eol := Message("", "a", " ", [], ""), "\n";
    EmptyMessageNeat(n, eol, enc);
    NeatOne(n, false, enc);
    SplitPrintedForest([n], eol, enc);
    ItemsOne(n, eol, enc);
    NoSpaces();
    ReadItem(n, "", eol, enc);
    assert "" + Render(n, eol, enc) == Render(n, eol, enc);
    NotReadable(n);
  }

  /** A field with the name of an enum value: neat, and its item is not JSON. */
  lemma EnumUnread(enc: string -> string)
    ensures var n := Message("", "a", " ", [Field(" ", "s", "RUNNING")], "");
      Neat(n, false, enc) && Json.Read(Render(n, "\n", enc)) == None
  {
    hide *;
    var f, eol := Field(" ", "s", "RUNNING"), "\n";
    var n := Message("", "a", " ", [f], "");
    EnumNeat(f, enc);
    NeatOne(f, true, enc);
    NamesOne(f);
    MessageNeat(n, f, eol, enc);
    NoSpaces();
    ReadItem(n, "", eol, enc);
    assert "" + Render(n, eol, enc) == Render(n, eol, enc);
  }

  lemma EnumNeat(f: Node, enc: string -> string)
    requires f == Field(" ", "s", "RUNNING")
    ensures Neat(f, true, enc) && Names(f) == 1
  {
    hide Json.IsLiteral;
    Json.NoDigitFirst("RUNNING");
  }

  lemma NamesOne(f: Node)
    ensures NamesAll([f]) == Names(f)
  {
    hide Names;
    assert [f][1..] == [];
  }

  lemma MessageNeat(n: Node, f: Node, eol: string, enc: string -> string)
    requires n == Message("", "a", " ", [f], "") && eol == "\n" && NeatAll([f], true, enc) && NamesAll([f]) == 1
    ensures Neat(n, false, enc) && !Readable(n) && IsEol(eol)
  {
    hide NeatAll, NamesAll;
  }

  lemma EmptyMessageNeat(n: Node, eol: string, enc: string -> string)
    requires n == Message("", "a", " ", [], "") && eol == "\n"
    ensures Neat(n, false, enc) && EmptyBlocks(n) == 1 && IsEol(eol)
  {
  }

  lemma NeatOne(n: Node, nested: bool, enc: string -> string)
    requires Neat(n, nested, enc)
    ensures NeatAll([n], nested, enc)
  {
    hide Neat;
    assert [n][1..] == [];
  }

  lemma ItemsOne(n: Node, eol: string, enc: string -> string)
    ensures Items([n], "", eol, enc) == [Render(n, eol, enc)]
  {
    hide Render;
    assert [n][1..] == [] && "" + Render(n, eol, enc) == Render(n, eol, enc);
  }

  lemma NotReadable(n: Node)
    requires EmptyBlocks(n) > 0
    ensures !Readable(n)
  {
  }

  lemma NoSpaces()
    ensures All(Json.IsSpace, "")
  {
  }

  // A literal that ends in a brace, below neat children of a message.

  function BraceTail(before: seq<Node>, fieldSpace: string, fieldKey: string, lit: string, eol: string): string {
    (if before == [] then "" else "]") + (eol + (fieldSpace + (Pair(fieldKey) + (" " + (lit + ("]" + ("]" + ("]" + (eol + "]")))))))))
  }

  function BraceItem(space: string, key: string, gap: string, before: seq<Node>, fieldSpace: string, fieldKey: string,
                     lit: string, eol: string, enc: string -> string): string {
    Opening(space, key, gap) + (RenderAll(before, false, eol, enc) + BraceTail(before, fieldSpace, fieldKey, lit, eol))
  }

  function BraceTailTokens(some: bool, fieldKey: string, lit: string): seq<Json.Token> {
    (if some then [Json.RBracket] else []) + (PairTokens(fieldKey) + ([Json.Lit(lit)] + FourClosers()))
  }

  function FourClosers(): seq<Json.Token> {
    [Json.RBracket] + ([Json.RBracket] + ([Json.RBracket] + [Json.RBracket]))
  }

  lemma LexClosers(eol: string)
    requires All(Json.IsSpace, eol)
    ensures Json.Lex("]" + ("]" + ("]" + (eol + "]")))) == Some(FourClosers())
  {
    hide Json.Lex;
    LexNothing();
    assert "]" + "" == "]";
    Json.LexBracket(']', "");
    Json.LexSpaces(eol, "]");
    Json.LexBracket(']', eol + "]");
    Json.LexBracket(']', "]" + (eol + "]"));
    Json.LexBracket(']', "]" + ("]" + (eol + "]")));
    assert [Json.RBracket] + [] == [Json.RBracket];
  }

  lemma LexNothing()
    ensures Json.Lex("") == Some([])
  {
  }

  lemma LexBraceTail(before: seq<Node>, fieldSpace: string, fieldKey: string, lit: string, eol: string)
    requires IsIndent(fieldSpace) && All(IsKeyChar, fieldKey) && Json.IsLiteral(lit) && All(Json.IsSpace, eol)
    ensures Json.Lex(BraceTail(before, fieldSpace, fieldKey, lit, eol)) == Some(BraceTailTokens(before != [], fieldKey, lit))
  {
    hide Json.Lex;
    var closers := "]" + ("]" + ("]" + (eol + "]")));
    var value := " " + (lit + closers);
    var field := fieldSpace + (Pair(fieldKey) + value);
    LexClosers(eol);
    Json.LexLiteral(lit, closers);
    Json.LexSpaces(" ", lit + closers);
    LexPair(fieldSpace, fieldKey, value);
    Json.LexSpaces(eol, field);
    if before == [] {
      assert "" + (eol + field) == eol + field;
      var tokens := PairTokens(fieldKey) + ([Json.Lit(lit)] + FourClosers());
      assert [] + tokens == tokens;
    } else {
      Json.LexBracket(']', eol + field);
    }
  }

  lemma DepthBraceTail(some: bool, fieldKey: string, lit: string)
    ensures Json.Depth(BraceTailTokens(some, fieldKey, lit)) == if some then -4 else -3
  {
    DepthPair(fieldKey);
    Json.DepthAppend([Json.RBracket], [Json.RBracket]);
    Json.DepthAppend([Json.RBracket], [Json.RBracket] + [Json.RBracket]);
    Json.DepthAppend([Json.RBracket], [Json.RBracket] + ([Json.RBracket] + [Json.RBracket]));
    Json.DepthAppend([Json.Lit(lit)], FourClosers());
    Json.DepthAppend(PairTokens(fieldKey), [Json.Lit(lit)] + FourClosers());
    Json.DepthAppend(if some then [Json.RBracket] else [], PairTokens(fieldKey) + ([Json.Lit(lit)] + FourClosers()));
  }

  /** The brackets that the item of such a message leaves open: each empty block adds one, the brace takes one,
      and another one if there are children before it. */
  lemma BraceItemDepth(space: string, key: string, gap: string, before: seq<Node>, fieldSpace: string, fieldKey: string,
                       lit: string, eol: string, enc: string -> string)
    requires IsIndent(space) && IsIndent(gap) && All(IsOpenKeyChar, key) && NeatAll(before, true, enc) && NamesAll(before) == 0
    requires IsIndent(fieldSpace) && All(IsKeyChar, fieldKey) && Json.IsLiteral(lit) && IsEol(eol)
    ensures var r := Json.Lex(BraceItem(space, key, gap, before, fieldSpace, fieldKey, lit, eol, enc));
      r.Some? && Json.Depth(r.value) == EmptyBlocksAll(before) - if before == [] then 1 else 2
  {
    hide Json.Lex, BraceItem, BraceTailTokens;
    var first, middle, last :=
      PairTokens(key) + [Json.LBracket], TokensAll(before, false, enc), BraceTailTokens(before != [], fieldKey, lit);
    BraceItemLex(space, key, gap, before, fieldSpace, fieldKey, lit, eol, enc);
    DepthPair(key);
    Json.DepthAppend(PairTokens(key), [Json.LBracket]);
    TokensDepthAll(before, false, enc);
    DepthBraceTail(before != [], fieldKey, lit);
    Json.DepthAppend(first, middle);
    Json.DepthAppend(first + middle, last);
  }

  /** A message whose last field is a number or literal name followed by a brace, below neat children: its
      item is never JSON. */
  lemma BraceFieldSpoils(space: string, key: string, gap: string, before: seq<Node>, fieldSpace: string, fieldKey: string,
                         lit: string, eol: string, enc: string -> string)
    requires IsIndent(space) && IsIndent(gap) && key != "" && All(IsOpenKeyChar, key) && NeatAll(before, true, enc)
    requires IsIndent(fieldSpace) && fieldKey != "" && All(IsKeyChar, fieldKey) && Json.IsLiteral(lit) && IsEol(eol)
    ensures var lines := [space + (key + (gap + "{")) + eol]
        + (PrintAll(before, eol) + ([fieldSpace + (fieldKey + (": " + (lit + "}"))) + eol] + ["}" + eol]));
      var item := BraceItem(space, key, gap, before, fieldSpace, fieldKey, lit, eol, enc);
      Split(lines, enc) == [item] && Json.Read(item) == None
  {
    BraceItemSplit(space, key, gap, before, fieldSpace, fieldKey, lit, eol, enc);
    BraceItemUnread(space, key, gap, before, fieldSpace, fieldKey, lit, eol, enc);
  }

  /** After other children an array follows another without a comma; without them a bracket is closed too many. */
  lemma BraceItemUnread(space: string, key: string, gap: string, before: seq<Node>, fieldSpace: string, fieldKey: string,
                        lit: string, eol: string, enc: string -> string)
    requires IsIndent(space) && IsIndent(gap) && All(IsOpenKeyChar, key) && NeatAll(before, true, enc)
    requires IsIndent(fieldSpace) && All(IsKeyChar, fieldKey) && Json.IsLiteral(lit) && IsEol(eol)
    ensures Json.Read(BraceItem(space, key, gap, before, fieldSpace, fieldKey, lit, eol, enc)) == None
  {
    hide Json.Lex, Json.ParseValue, Json.ParseElements, BraceTail, Json.IsLiteral, Json.NoClash;
    var item := BraceItem(space, key, gap, before, fieldSpace, fieldKey, lit, eol, enc);
    var tail := BraceTail(before, fieldSpace, fieldKey, lit, eol);
    if NamesAll(before) > 0 {
      LexOpening(space, key, gap, RenderAll(before, false, eol, enc) + tail);
      LexNamedAll(before, false, eol, tail, enc);
    } else if before == [] {
      BraceItemDepth(space, key, gap, before, fieldSpace, fieldKey, lit, eol, enc);
      if Json.Read(item).Some? {
        Json.ReadBalanced(item);
      }
    } else {
      BraceItemLex(space, key, gap, before, fieldSpace, fieldKey, lit, eol, enc);
      BraceClash((PairTokens(key) + [Json.LBracket]) + TokensAll(before, false, enc), fieldKey, lit);
      if Json.Read(item).Some? {
        Json.ReadClean(item);
      }
    }
  }

  lemma BraceClash(front: seq<Json.Token>, fieldKey: string, lit: string)
    ensures !Json.NoClash(front + BraceTailTokens(true, fieldKey, lit))
  {
    var ts, i := front + BraceTailTokens(true, fieldKey, lit), |front| + 1;
    assert ts[i] == Json.LBracket && ts[i - 1] == Json.RBracket;
  }

  lemma BraceItemLex(space: string, key: string, gap: string, before: seq<Node>, fieldSpace: string, fieldKey: string,
                     lit: string, eol: string, enc: string -> string)
    requires IsIndent(space) && IsIndent(gap) && All(IsOpenKeyChar, key) && NeatAll(before, true, enc) && NamesAll(before) == 0
    requires IsIndent(fieldSpace) && All(IsKeyChar, fieldKey) && Json.IsLiteral(lit) && IsEol(eol)
    ensures Json.Lex(BraceItem(space, key, gap, before, fieldSpace, fieldKey, lit, eol, enc))
         == Some(((PairTokens(key) + [Json.LBracket]) + TokensAll(before, false, enc)) + BraceTailTokens(before != [], fieldKey, lit))
  {
    hide Json.Lex, BraceTail, BraceTailTokens;
    var tail := BraceTail(before, fieldSpace, fieldKey, lit, eol);
    var first, middle, last :=
      PairTokens(key) + [Json.LBracket], TokensAll(before, false, enc), BraceTailTokens(before != [], fieldKey, lit);
    LexBraceTail(before, fieldSpace, fieldKey, lit, eol);
    LexRenderAll(before, false, eol, tail, enc);
    LexOpening(space, key, gap, RenderAll(before, false, eol, enc) + tail);
    assert first + (middle + last) == (first + middle) + last;
  }

  lemma BraceItemSplit(space: string, key: string, gap: string, before: seq<Node>, fieldSpace: string, fieldKey: string,
                       lit: string, eol: string, enc: string -> string)
    requires IsIndent(space) && IsIndent(gap) && key != "" && All(IsOpenKeyChar, key) && NeatAll(before, true, enc)
    requires IsIndent(fieldSpace) && fieldKey != "" && All(IsKeyChar, fieldKey) && Json.IsLiteral(lit) && IsEol(eol)
    ensures Split([space + (key + (gap + "{")) + eol]
        + (PrintAll(before, eol) + ([fieldSpace + (fieldKey + (": " + (lit + "}"))) + eol] + ["}" + eol])), enc)
      == [BraceItem(space, key, gap, before, fieldSpace, fieldKey, lit, eol, enc)]
  {
    hide Rewrite;
    var first, field, last := space + (key + (gap + "{")) + eol, fieldSpace + (fieldKey + (": " + (lit + "}"))) + eol, "}" + eol;
    RewriteOpen(space, key, gap, eol, enc);
    LitBrace(lit);
    RewriteBrace(fieldSpace, fieldKey, lit + "}", eol, enc);
    assert "" + "}" + eol == last;
    RewriteClose("", eol, enc);
    RewriteAllPrinted(before, true, eol, enc);
    RewriteAllAppend([first], PrintAll(before, eol) + ([field] + [last]), enc);
    RewriteAllAppend(PrintAll(before, eol), [field] + [last], enc);
    RewriteAllAppend([field], [last], enc);
    RewriteOne(first, enc);
    RewriteOne(field, enc);
    RewriteOne(last, enc);
    AdvanceBrace(space, key, gap, before, fieldSpace, fieldKey, lit, eol, enc);
  }

  /** A literal is no lone brace when a closing brace follows it, and has no line break. */
  lemma LitBrace(lit: string)
    requires Json.IsLiteral(lit)
    ensures Unbroken(lit + "}") && !LoneBrace(lit + "}") && EndsWith(lit + "}", '}')
    ensures lit[0] != '"' && (lit + "}")[..|lit + "}"| - 1] == lit
  {
    Json.LiteralChars(lit);
    hide Json.IsLiteral;
    assert Json.IsLitChar(lit[0]) && (lit + "}")[0] == lit[0];
    RunSplit(IsBlank, "", lit + "}");
    assert "" + (lit + "}") == lit + "}";
  }

  lemma AdvanceBrace(space: string, key: string, gap: string, before: seq<Node>, fieldSpace: string, fieldKey: string,
                     lit: string, eol: string, enc: string -> string)
    requires NeatAll(before, true, enc) && Json.IsLiteral(lit)
    ensures Flush(AdvanceAll(START, [OpenRow(space, key, gap, eol)]
        + (RowsAll(before, eol, enc) + ([BraceRow(fieldSpace, fieldKey, lit + "}", eol, enc)] + [CloseRow("", eol)]))))
      == [BraceItem(space, key, gap, before, fieldSpace, fieldKey, lit, eol, enc)]
  {
    hide RowsAll, RenderAll, Opening, Pair;
    var open, brace, close := OpenRow(space, key, gap, eol), BraceRow(fieldSpace, fieldKey, lit + "}", eol, enc), CloseRow("", eol);
    var rows := RowsAll(before, eol, enc);
    LitBrace(lit);
    AdvanceAllAppend(START, [open], rows + ([brace] + [close]));
    AdvanceOne(START, open);
    var st1 := Advance(START, open);
    assert st1 == State([], Opening(space, key, gap), true, false, eol) by {
      assert "" + "" + ("" + Opening(space, key, gap)) == Opening(space, key, gap);
    }
    AdvanceAllAppend(st1, rows, [brace] + [close]);
    AdvanceChildren(st1, before, eol, enc);
    var st2 := st1.(out := st1.out + RenderAll(before, false, eol, enc), comma := before != []);
    AdvanceAllAppend(st2, [brace], [close]);
    AdvanceOne(st2, brace);
    AdvanceOne(Advance(st2, brace), close);
    GroupBrace(Opening(space, key, gap), RenderAll(before, false, eol, enc), if before == [] then "" else "]", eol,
               fieldSpace, Pair(fieldKey), lit);
  }

  lemma GroupBrace(open: string, all: string, bracket: string, eol: string, space: string, pair: string, lit: string)
    ensures open + all + bracket + (eol + (space + (pair + (" " + (lit + "]" + "]"))))) + "]" + (eol + ("" + "]"))
         == open + (all + (bracket + (eol + (space + (pair + (" " + (lit + ("]" + ("]" + ("]" + (eol + "]")))))))))))
  {
  }

  /** Translating a printed forest and reading every item gives back the forest, message by
      message, exactly where the messages have no empty block and no bare name. */
  lemma {:induction false} ReadItems(forest: seq<Node>, tail: string, eol: string, enc: string -> string, i: nat)
    requires NeatAll(forest, false, enc) && All(Json.IsSpace, tail) && IsEol(eol)
    requires i < |forest|
    ensures |Items(forest, tail, eol, enc)| == |forest|
    ensures Json.Read(Items(forest, tail, eol, enc)[i])
         == if Readable(forest[i]) then Some(ToJson(forest[i], enc)) else None
  {
    if i == 0 {
      ReadItem(forest[0], tail, eol, enc);
      if |forest| > 1 {
        ReadItems(forest[1..], eol, eol, enc, 0);
      }
    } else {
      ReadItems(forest[1..], eol, eol, enc, i - 1);
    }
  }

  /** What a node says: a key with a text, or a key with what its children say. A quoted value says what the
      encoder makes of it. */
  datatype Tree = Leaf(key: string, text: string) | Branch(key: string, children: seq<Tree>)

  function Meaning(n: Node, enc: string -> string): Tree
    decreases n, 1
  {
    match n
    case Field(_, key, value) => Leaf(key, if value != "" && value[0] == '"' then enc(value) else value)
    case Message(_, key, _, children, _) => Branch(key, MeaningAll(children, enc))
  }

  function MeaningAll(ns: seq<Node>, enc: string -> string): seq<Tree>
    decreases ns, 0
  {
    if ns == [] then [] else [Meaning(ns[0], enc)] + MeaningAll(ns[1..], enc)
  }

  /** What a JSON value says: a pair of a string and a scalar, or of a string and an array of such pairs. */
  function Decode(v: Json.Value): Option<Tree>
    decreases v, 1
  {
    if v.Array? && |v.items| == 2 && v.items[0].Scalar? && v.items[0].token.Str? && |v.items[0].token.text| >= 2 then
      var name := v.items[0].token.text;
      var key := name[1..|name| - 1];
      match v.items[1]
      case Scalar(t) => if t.Str? || t.Lit? then Some(Leaf(key, t.text)) else None
      case Array(items) =>
        match DecodeAll(items)
        case None => None
        case Some(trees) => Some(Branch(key, trees))
    else None
  }

  function DecodeAll(vs: seq<Json.Value>): Option<seq<Tree>>
    decreases vs, 0
  {
    if vs == [] then Some([])
    else match Decode(vs[0])
         case None => None
         case Some(tree) =>
           match DecodeAll(vs[1..])
           case None => None
           case Some(trees) => Some([tree] + trees)
  }

  /** The text between the quotes of a key is the key. */
  lemma KeyText(key: string)
    ensures |Quoted(key)| == |key| + 2 && Quoted(key)[0] == '"' && Quoted(key)[|key| + 1] == '"' && Quoted(key)[1..|key| + 1] == key
  {
  }

  lemma {:induction false} DecodeJson(n: Node, enc: string -> string)
    ensures Decode(ToJson(n, enc)) == Some(Meaning(n, enc))
    decreases n, 1
  {
    match n
    case Field(_, key, value) =>
      KeyText(key);
    case Message(_, key, _, children, _) =>
      KeyText(key);
      DecodeJsonAll(children, enc);
  }

  lemma {:induction false} DecodeJsonAll(ns: seq<Node>, enc: string -> string)
    ensures DecodeAll(ToJsonAll(ns, enc)) == Some(MeaningAll(ns, enc))
    decreases ns, 0
  {
    hide Decode, ToJson;
    if ns != [] {
      DecodeJson(ns[0], enc);
      DecodeJsonAll(ns[1..], enc);
      assert ToJsonAll(ns, enc)[1..] == ToJsonAll(ns[1..], enc);
    }
  }

  /** A message with one field, as text. */
  lemma TranslatesAs(enc: string -> string)
    ensures Split(["a-Z_9: {\n", "\tbY-_8: 1\r\n", "}"], enc) == ["[\"a-Z_9:\", [\n\t[\"bY-_8\", 1]]\r\n]"]
  {
    TranslatesOpen(enc);
    TranslatesField(enc);
    TranslatesClose(enc);
    RewriteThree("a-Z_9: {\n", "\tbY-_8: 1\r\n", "}", enc);
    hide Rewrite, RewriteAll, AdvanceAll;
    var r1, r2, r3 := Rewrite("a-Z_9: {\n", enc), Rewrite("\tbY-_8: 1\r\n", enc), Rewrite("}", enc);
    AdvanceAllAppend(START, [r1], [r2] + [r3]);
    AdvanceOne(START, r1);
    var st1 := Advance(START, r1);
    AdvanceAllAppend(st1, [r2], [r3]);
    AdvanceOne(st1, r2);
    var st2 := Advance(st1, r2);
    AdvanceOne(st2, r3);
    assert st1.out == "[\"a-Z_9:\", [";
    assert st2.out == "[\"a-Z_9:\", [\n\t[\"bY-_8\", 1]";
    assert st2.out + "]" + ("\r\n" + "]") == "[\"a-Z_9:\", [\n\t[\"bY-_8\", 1]]\r\n]";
  }

  lemma RewriteThree(a: string, b: string, c: string, enc: string -> string)
    ensures RewriteAll([a, b, c], enc) == [Rewrite(a, enc)] + ([Rewrite(b, enc)] + [Rewrite(c, enc)])
  {
    hide Rewrite;
    assert [a, b, c][1..] == [b, c] && [b, c][1..] == [c] && [c][1..] == [];
    assert RewriteAll([c], enc) == [Rewrite(c, enc)];
    assert RewriteAll([b, c], enc) == [Rewrite(b, enc)] + [Rewrite(c, enc)];
  }

  lemma TranslatesOpen(enc: string -> string)
    ensures Rewrite("a-Z_9: {\n", enc) == Row("[\"a-Z_9:\", [", false, false, false, "\n")
  {
    hide Rewrite;
    RewriteOpen("", "a-Z_9:", " ", "\n", enc);
    assert "" + ("a-Z_9:" + (" " + "{")) + "\n" == "a-Z_9: {\n";
    assert Opening("", "a-Z_9:", " ") == "[\"a-Z_9:\", [";
  }

  lemma TranslatesField(enc: string -> string)
    ensures Rewrite("\tbY-_8: 1\r\n", enc) == Row("\t[\"bY-_8\", 1]", false, false, true, "\r\n")
  {
    hide Rewrite, LoneBrace, Format;
    OneIsPlain();
    RewriteField("\t", "bY-_8", "1", "\r\n", enc);
    assert "\t" + ("bY-_8" + (": " + "1")) + "\r\n" == "\tbY-_8: 1\r\n";
    assert Format("\t", "bY-_8", "1", enc) == "\t[\"bY-_8\", 1]" by { FormatOf(enc); }
  }

  /** The other two blanks of the patterns. */
  lemma BlanksAs(enc: string -> string)
    ensures FieldSub("\U{0B}\U{0C}k: 1", enc) == "\U{0B}\U{0C}[\"k\", 1]"
  {
    hide FieldSub, Format;
    FieldParts("\U{0B}\U{0C}", "k", ": 1", enc);
    assert "\U{0B}\U{0C}" + ("k" + ": 1") == "\U{0B}\U{0C}k: 1" && ": 1"[2..] == "1";
    FormatBlank(enc);
  }

  lemma FormatBlank(enc: string -> string)
    ensures Format("\U{0B}\U{0C}", "k", "1", enc) == "\U{0B}\U{0C}[\"k\", 1]"
  {
  }

  lemma OneIsPlain()
    ensures !LoneBrace("1")
  {
    RunSplit(IsBlank, "", "1");
    assert "" + "1" == "1";
  }

  lemma FormatOf(enc: string -> string)
    ensures Format("\t", "bY-_8", "1", enc) == "\t[\"bY-_8\", 1]"
  {
  }

  lemma TranslatesClose(enc: string -> string)
    ensures Rewrite("}", enc) == Row("]", true, true, false, "")
  {
    hide Rewrite;
    RewriteClose("", "\n", enc);
    assert "" + "}" + "\n" == "}\n" && "" + "]" == "]";
    RewriteUnended("}\n", enc);
    SplitsAtEol("}", "\n");
    assert "}" + "\n" == "}\n";
  }

  /** The whole pipeline, on every neatly printed forest. */
  lemma TranslateAndRead(forest: seq<Node>, eol: string, enc: string -> string)
    requires NeatAll(forest, false, enc) && IsEol(eol)
    ensures var items := Split(PrintAll(forest, eol), enc);
      && |items| == |forest|
      && items == Split(Unended(PrintAll(forest, eol)), enc)
      && forall i :: 0 <= i < |forest| ==>
           && Json.Read(items[i]) == (if Readable(forest[i]) then Some(ToJson(forest[i], enc)) else None)
           && (Readable(forest[i]) ==> Decode(Json.Read(items[i]).value) == Some(Meaning(forest[i], enc)))
  {
    SplitPrintedForest(forest, eol, enc);
    forall i | 0 <= i < |forest|
      ensures |Items(forest, "", eol, enc)| == |forest|
      ensures Json.Read(Items(forest, "", eol, enc)[i])
           == if Readable(forest[i]) then Some(ToJson(forest[i], enc)) else None
      ensures Decode(ToJson(forest[i], enc)) == Some(Meaning(forest[i], enc))
    {
      ReadItems(forest, "", eol, enc, i);
      DecodeJson(forest[i], enc);
    }
  }
}
