/**
 * The command decoder: `Command.parse` turns the raw command of a request
 * (`/d/select.json?table=Entries&filter=...`) into a name and a parameter
 * table, and `SelectCommand` reads the clauses of a `select` command.
 */
module Commands {
  import opened Wrappers
  import opened RubyText

  // ---------------------------------------------------------------------
  // CGI.unescape and its inverse CGI.escape, over byte strings

  predicate IsByte(c: char) { c as int < 256 }

  predicate IsHexDigit(c: char) { '0' <= c <= '9' || 'a' <= c <= 'f' || 'A' <= c <= 'F' }

  function HexValue(c: char): (v: nat)
    requires IsHexDigit(c)
    ensures v < 16
  {
    if '0' <= c <= '9' then c as nat - '0' as nat
    else if 'a' <= c <= 'f' then c as nat - 'a' as nat + 10
    else c as nat - 'A' as nat + 10
  }

  /** An upper-case hexadecimal digit, as CGI.escape writes them. */
  function HexDigit(v: nat): (c: char)
    requires v < 16
    ensures IsHexDigit(c) && HexValue(c) == v
  {
    if v < 10 then ('0' as nat + v) as char else ('A' as nat + v - 10) as char
  }

  /**
   * CGI.unescape: `+` becomes a space and every `%` followed by two hexadecimal
   * digits becomes the byte they spell; every other character is kept.
   */
  function Unescape(s: string): (r: string)
    ensures |r| <= |s|
    ensures '%' !in s && '+' !in s ==> r == s
  {
    if s == [] then []
    else if s[0] == '%' && |s| >= 3 && IsHexDigit(s[1]) && IsHexDigit(s[2]) then
      [(16 * HexValue(s[1]) + HexValue(s[2])) as char] + Unescape(s[3..])
    else if s[0] == '+' then " " + Unescape(s[1..])
    else [s[0]] + Unescape(s[1..])
  }

  /** The bytes CGI.escape leaves alone. */
  predicate IsUnreserved(c: char) {
    'a' <= c <= 'z' || 'A' <= c <= 'Z' || '0' <= c <= '9' || c == '_' || c == '.' || c == '-' || c == '~'
  }

  function EscapeByte(c: char): (r: string)
    requires IsByte(c)
  {
    if IsUnreserved(c) then [c]
    else if c == ' ' then "+"
    else ['%', HexDigit(c as nat / 16), HexDigit(c as nat % 16)]
  }

  /** CGI.escape (the encoder of application/x-www-form-urlencoded values). */
  function Escape(s: string): (r: string)
    requires forall k :: 0 <= k < |s| ==> IsByte(s[k])
    ensures '&' !in r && '=' !in r
  {
    if s == [] then [] else EscapeByte(s[0]) + Escape(s[1..])
  }

  lemma UnescapeEscapeByte(c: char, rest: string)
    requires IsByte(c)
    ensures Unescape(EscapeByte(c) + rest) == [c] + Unescape(rest)
  {
    var e := EscapeByte(c) + rest;
    if !IsUnreserved(c) && c != ' ' {
      assert e[3..] == rest;
      assert 16 * (c as nat / 16) + c as nat % 16 == c as nat;
    } else {
      assert e[1..] == rest;
    }
  }

  /** Unescaping undoes escaping. */
  lemma {:induction false} UnescapeEscape(s: string)
    requires forall k :: 0 <= k < |s| ==> IsByte(s[k])
    ensures Unescape(Escape(s)) == s
  {
    if s != [] {
      UnescapeEscapeByte(s[0], Escape(s[1..]));
      UnescapeEscape(s[1..]);
    }
  }

  /**
   * The ways a form-encoded value may spell the byte c: literally (unless c
   * is `%` or `+`), as `+` for a space, or as `%` and two hexadecimal digits
   * of either case.
   */
  predicate EncodesByte(e: string, c: char) {
    || (e == [c] && c != '%' && c != '+')
    || (e == "+" && c == ' ')
    || (|e| == 3 && e[0] == '%' && IsHexDigit(e[1]) && IsHexDigit(e[2])
        && 16 * HexValue(e[1]) + HexValue(e[2]) == c as int)
  }

  /** The pieces written one after the other. */
  function Flatten(pieces: seq<string>): string {
    if pieces == [] then [] else pieces[0] + Flatten(pieces[1..])
  }

  lemma UnescapePiece(e: string, c: char, rest: string)
    requires EncodesByte(e, c)
    ensures Unescape(e + rest) == [c] + Unescape(rest)
  {
    var s := e + rest;
    if |e| == 3 {
      assert s[1] == e[1] && s[2] == e[2] && s[3..] == rest;
    } else {
      assert s[0] == e[0] && s[1..] == rest;
    }
  }

  /** Unescaping reads back the bytes of every encoding of them, not only the one CGI.escape writes. */
  lemma {:induction false} UnescapeAnyEncoding(pieces: seq<string>, s: string)
    requires |pieces| == |s| && forall k :: 0 <= k < |s| ==> EncodesByte(pieces[k], s[k])
    ensures Unescape(Flatten(pieces)) == s
  {
    if s != [] {
      UnescapePiece(pieces[0], s[0], Flatten(pieces[1..]));
      UnescapeAnyEncoding(pieces[1..], s[1..]);
    }
  }

  /** Lower-case hexadecimal, `%20` and an escaped unreserved byte are all decoded. */
  lemma UnescapeExample()
    ensures Unescape("%2b%20%41") == "+ A"
  {
    var pieces := ["%2b", "%20", "%41"];
    assert Flatten(pieces) == "%2b%20%41";
    UnescapeAnyEncoding(pieces, "+ A");
  }

  // ---------------------------------------------------------------------
  // Command.parse

  /** The command classes `Command.register` knows of; anything else is a plain Command. */
  datatype CommandClass = PlainCommand | SelectCommand

  const RegisteredCommands: map<string, CommandClass> := map["select" := SelectCommand]

  /** A decoded command. `name` is None where Ruby yields nil (an empty name). */
  datatype Command = Command(commandClass: CommandClass, name: Option<string>, parameters: map<string, string>)

  function Key(piece: string): string
    requires '=' in piece
  {
    piece[..IndexOf(piece, '=')]
  }

  function Value(piece: string): string
    requires '=' in piece
  {
    piece[IndexOf(piece, '=') + 1..]
  }

  /** The text after the first `?`. */
  function QueryString(path: string): string
    requires '?' in path
  {
    path[IndexOf(path, '?') + 1..]
  }

  /** The text before the first `?`, with one leading `/d/` removed. */
  function Stem(path: string): string
    requires '?' in path
  {
    var name := path[..IndexOf(path, '?')];
    if StartsWith(name, "/d/") then name[3..] else name
  }

  predicate AllHaveKeys(pieces: seq<string>) {
    forall k :: 0 <= k < |pieces| ==> '=' in pieces[k]
  }

  /**
   * What Command.parse needs of its input not to raise: a `?` (otherwise the
   * parameter string is nil), and a `=` in every `&`-separated piece (otherwise
   * CGI.unescape is given nil).
   */
  predicate Parsable(path: string) {
    '?' in path && AllHaveKeys(Split(QueryString(path), '&'))
  }

  /** The parameter table built piece by piece; a later piece overwrites an earlier key. */
  function ParseParameters(pieces: seq<string>): map<string, string>
    requires AllHaveKeys(pieces)
  {
    if pieces == [] then map[]
    else
      var last := pieces[|pieces| - 1];
      ParseParameters(pieces[..|pieces| - 1])[Key(last) := Unescape(Value(last))]
  }

  /** The table has exactly the keys of the pieces. */
  lemma {:induction false} ParseParametersKeys(pieces: seq<string>)
    requires AllHaveKeys(pieces)
    ensures forall k :: 0 <= k < |pieces| ==> Key(pieces[k]) in ParseParameters(pieces)
    ensures forall key :: key in ParseParameters(pieces) ==> exists k :: 0 <= k < |pieces| && Key(pieces[k]) == key
  {
    if pieces != [] {
      ParseParametersKeys(pieces[..|pieces| - 1]);
      KeysKept(pieces);
      KeysFromPieces(pieces);
    }
  }

  /** Every piece's key stays in the table when one more piece is read. */
  lemma KeysKept(pieces: seq<string>)
    requires AllHaveKeys(pieces) && pieces != []
    requires var init := pieces[..|pieces| - 1];
      forall k :: 0 <= k < |init| ==> Key(init[k]) in ParseParameters(init)
    ensures forall k :: 0 <= k < |pieces| ==> Key(pieces[k]) in ParseParameters(pieces)
  {
    var n := |pieces| - 1;
    var init := pieces[..n];
    forall k | 0 <= k < n ensures Key(pieces[k]) in ParseParameters(pieces) {
      assert pieces[k] == init[k];
      assert Key(init[k]) in ParseParameters(init);
    }
  }

  /** Reading one more piece adds no key but that piece's own. */
  lemma KeysFromPieces(pieces: seq<string>)
    requires AllHaveKeys(pieces) && pieces != []
    requires var init := pieces[..|pieces| - 1];
      forall key :: key in ParseParameters(init) ==> exists k :: 0 <= k < |init| && Key(init[k]) == key
    ensures forall key :: key in ParseParameters(pieces) ==> exists k :: 0 <= k < |pieces| && Key(pieces[k]) == key
  {
    var n := |pieces| - 1;
    var init := pieces[..n];
    forall key | key in ParseParameters(pieces) ensures exists k :: 0 <= k < |pieces| && Key(pieces[k]) == key {
      if key != Key(pieces[n]) {
        assert key in ParseParameters(init);
        var k :| 0 <= k < |init| && Key(init[k]) == key;
        assert pieces[k] == init[k];
      }
    }
  }

  /** Each key holds the unescaped value of its last occurrence. */
  lemma {:induction false} ParseParametersLastWins(pieces: seq<string>)
    requires AllHaveKeys(pieces)
    ensures forall k :: 0 <= k < |pieces| && IsLastWithKey(pieces, k) ==>
      Key(pieces[k]) in ParseParameters(pieces) &&
      ParseParameters(pieces)[Key(pieces[k])] == Unescape(Value(pieces[k]))
  {
    if pieces != [] {
      var n := |pieces| - 1;
      var init := pieces[..n];
      ParseParametersLastWins(init);
      forall k | 0 <= k < n && IsLastWithKey(pieces, k)
        ensures Key(pieces[k]) in ParseParameters(pieces) &&
          ParseParameters(pieces)[Key(pieces[k])] == Unescape(Value(pieces[k]))
      {
        assert pieces[k] == init[k];
        assert Key(pieces[n]) != Key(pieces[k]);
        assert IsLastWithKey(init, k) by {
          forall j | k < j < |init| ensures Key(init[j]) != Key(init[k]) {
            assert init[j] == pieces[j];
          }
        }
      }
    }
  }

  /** No later piece has the same key as piece k. */
  predicate IsLastWithKey(pieces: seq<string>, k: nat)
    requires AllHaveKeys(pieces) && k < |pieces|
  {
    forall j :: k < j < |pieces| ==> Key(pieces[j]) != Key(pieces[k])
  }

  /** The name and optional output type: `name.split(/\./, 2)`. */
  function SplitName(stem: string): (Option<string>, Option<string>) {
    if stem == [] then (None, None)
    else if '.' in stem then
      var i := IndexOf(stem, '.');
      (Some(stem[..i]), Some(stem[i + 1..]))
    else (Some(stem), None)
  }

  /** Command.parse. */
  function ParseCommand(path: string): (r: Command)
    requires Parsable(path)
    ensures r.commandClass == SelectCommand <==> r.name == Some("select")
  {
    var parameters := ParseParameters(Split(QueryString(path), '&'));
    var (name, outputType) := SplitName(Stem(path));
    var parameters' := if outputType.Some? then parameters["output_type" := outputType.value] else parameters;
    var commandClass := if name.Some? && name.value in RegisteredCommands then RegisteredCommands[name.value] else PlainCommand;
    Command(commandClass, name, parameters')
  }

  /** The name is the stem cut at its first `.`, None for an empty stem, and what follows the `.` is the output type. */
  lemma ParseCommandName(path: string)
    requires Parsable(path)
    ensures var r, stem := ParseCommand(path), Stem(path);
      && (r.name.None? <==> stem == [])
      && (r.name.Some? ==>
            && StartsWith(stem, r.name.value) && '.' !in r.name.value
            && (|r.name.value| < |stem| ==>
                  stem[|r.name.value|] == '.'
                  && "output_type" in r.parameters
                  && r.parameters["output_type"] == stem[|r.name.value| + 1..]))
  {
  }

  /** Every key of the query string is a parameter, holding the unescaped value of its last occurrence
      (unless the name carries an output type, which takes the key "output_type"). */
  lemma ParseCommandParameters(path: string)
    requires Parsable(path)
    ensures var r, pieces, stem := ParseCommand(path), Split(QueryString(path), '&'), Stem(path);
      && (forall k :: 0 <= k < |pieces| ==> Key(pieces[k]) in r.parameters)
      && (forall key :: key in r.parameters ==>
            key == "output_type" || exists k :: 0 <= k < |pieces| && Key(pieces[k]) == key)
      && (forall k :: 0 <= k < |pieces| && IsLastWithKey(pieces, k) && ('.' !in stem || Key(pieces[k]) != "output_type") ==>
            r.parameters[Key(pieces[k])] == Unescape(Value(pieces[k])))
      && ('.' !in stem ==> r.parameters == ParseParameters(pieces))
  {
    var pieces := Split(QueryString(path), '&');
    ParseParametersKeys(pieces);
    ParseParametersLastWins(pieces);
    OutputTypeOverride(path);
  }

  /** The command's table is the query string's table, with at most the key "output_type" added or replaced. */
  lemma OutputTypeOverride(path: string)
    requires Parsable(path)
    ensures var table, r := ParseParameters(Split(QueryString(path), '&')), ParseCommand(path).parameters;
      && table.Keys <= r.Keys <= table.Keys + {"output_type"}
      && (forall key :: key in table && ('.' !in Stem(path) || key != "output_type") ==> r[key] == table[key])
      && ('.' !in Stem(path) ==> r == table)
  {
  }

  // ---------------------------------------------------------------------
  // SelectCommand

  predicate IsSelect(c: Command) { c.commandClass == SelectCommand }

  /**
   * A parameter of the command, None when absent (Ruby's nil): `sortby`,
   * `scorer` and `output_columns` each read one key of `@parameters`.
   */
  function Parameter(c: Command, key: string): (r: Option<string>)
    ensures r.Some? <==> key in c.parameters
    ensures r.Some? ==> r.value == c.parameters[key]
  {
    if key in c.parameters then Some(c.parameters[key]) else None
  }

  /** `&&`, `&!` or `||` starts at position j. */
  predicate ConnectiveAt(s: string, j: nat) {
    j + 1 < |s| && ((s[j] == '&' && (s[j + 1] == '&' || s[j + 1] == '!')) || (s[j] == '|' && s[j + 1] == '|'))
  }

  /** The leftmost connective at or after position from. */
  function FirstConnective(s: string, from: nat): (r: Option<nat>)
    ensures r.Some? ==> from <= r.value && ConnectiveAt(s, r.value)
    ensures forall j :: from <= j && (r.None? || j < r.value) ==> !ConnectiveAt(s, j)
    decreases |s| - from
  {
    if from + 1 >= |s| then None
    else if ConnectiveAt(s, from) then Some(from)
    else FirstConnective(s, from + 1)
  }

  /**
   * r splits s at leftmost connectives: the first field is the text before the
   * first connective of s (all of s when there is none), and the other fields
   * split what follows that connective in the same way.
   */
  predicate LeftmostSplit(s: string, r: seq<string>)
    decreases |r|
  {
    && |r| >= 1 && |r[0]| <= |s| && r[0] == s[..|r[0]|]
    && (forall j :: 0 <= j < |r[0]| ==> !ConnectiveAt(s, j))
    && if |r| == 1 then r[0] == s
       else ConnectiveAt(s, |r[0]|) && LeftmostSplit(s[|r[0]| + 2..], r[1..])
  }

  /** There is only one way to split a string at its leftmost connectives. */
  lemma {:induction false} LeftmostSplitUnique(s: string, r1: seq<string>, r2: seq<string>)
    requires LeftmostSplit(s, r1) && LeftmostSplit(s, r2)
    ensures r1 == r2
    decreases |r1|
  {
    var n1, n2 := |r1[0]|, |r2[0]|;
    assert n2 <= n1 by {
      if |r1| > 1 {
        assert ConnectiveAt(s, n1);
      }
    }
    assert n1 <= n2 by {
      if |r2| > 1 {
        assert ConnectiveAt(s, n2);
      }
    }
    if |r1| == 1 || |r2| == 1 {
      assert |r1| == 1 && |r2| == 1;
    } else {
      LeftmostSplitUnique(s[n1 + 2..], r1[1..], r2[1..]);
      assert r1 == [r1[0]] + r1[1..] && r2 == [r2[0]] + r2[1..];
    }
  }

  /** The fields of `split(/(?:&&|&!|\|\|)/)` before empty trailing fields are dropped. */
  function ConnectiveFields(s: string): (r: seq<string>)
    ensures LeftmostSplit(s, r)
    ensures forall k :: 0 <= k < |r| ==> IsSlice(r[k], s)
    decreases |s|
  {
    match FirstConnective(s, 0)
    case None => assert s == s[0..|s|] == s[..|s|]; [s]
    case Some(j) =>
      var rest := ConnectiveFields(s[j + 2..]);
      assert ([s[..j]] + rest)[1..] == rest;
      assert IsSlice(s[j + 2..], s) by { assert s[j + 2..] == s[j + 2..|s|]; }
      forall k | 0 <= k < |rest| ensures IsSlice(rest[k], s) {
        var a, b :| 0 <= a <= b <= |s[j + 2..]| && rest[k] == s[j + 2..][a..b];
        SliceOfSlice(rest[k], s[j + 2..], s, a, b);
      }
      assert s[..j] == s[0..j];
      [s[..j]] + rest
  }

  /** Number of positions where a connective starts (overlapping occurrences counted). */
  function ConnectiveCount(s: string): nat {
    if |s| < 2 then 0 else (if ConnectiveAt(s, 0) then 1 else 0) + ConnectiveCount(s[1..])
  }

  /** The text holds a `(`. */
  predicate HasOpen(s: string) {
    s != [] && (s[0] == '(' || HasOpen(s[1..]))
  }

  /** HasOpen is membership of `(`, the `/\(/ =~` test. */
  lemma {:induction false} HasOpenIsMembership(s: string)
    ensures HasOpen(s) <==> '(' in s
  {
    if s != [] {
      HasOpenIsMembership(s[1..]);
      assert s == [s[0]] + s[1..];
    }
  }

  /** A prefix of a text without `(` has none either. */
  lemma {:induction false} NoOpenPrefix(u: string, n: nat)
    requires n <= |u| && !HasOpen(u)
    ensures !HasOpen(u[..n])
  {
    if n > 0 {
      assert u[..n][1..] == u[1..][..n - 1];
      NoOpenPrefix(u[1..], n - 1);
    }
  }

  predicate IsSpaceOrOpen(c: char) { IsSpace(c) || c == '(' }

  predicate IsSpaceOrClose(c: char) { IsSpace(c) || c == ')' }

  /** The cleaning `conditions` applies to each field. */
  function CleanCondition(field: string): (r: string)
    ensures r != [] ==> !IsSpaceOrOpen(r[0])
    ensures r != [] && !HasOpen(r) ==> !IsSpaceOrClose(r[|r| - 1])
  {
    var u := TrimOpen(Strip(field));
    if HasOpen(u) then u else TrimClose(u)
  }

  /**
   * r sits in field at position a, with only strip-space, `\s` and `(` before it,
   * and only strip-space after it, or also `\s` and `)` when r holds no `(`.
   */
  predicate CleanedAt(field: string, r: string, a: int) {
    && 0 <= a <= |field| - |r| && r == field[a..a + |r|]
    && (forall k :: 0 <= k < a ==> IsStripSpace(field[k]) || field[k] == '(')
    && (forall k :: a + |r| <= k < |field| ==> IsStripSpace(field[k]) || (!HasOpen(r) && field[k] == ')'))
  }

  /**
   * Cleaning removes only characters at the ends of the field: `\s` and `)`
   * go from the end only when the condition holds no `(`.
   */
  lemma CleanConditionRemovesEnds(field: string)
    ensures CleanedAt(field, CleanCondition(field), CleanStart(field))
  {
    var u := TrimOpen(Strip(field));
    OpenRunIsCleaned(field);
    if !HasOpen(u) {
      CloseRunIsCleaned(field, u, TrimClose(u), CleanStart(field));
    }
  }

  /** A condition that keeps a `(` still ends where String#strip left the field's end. */
  lemma CleanConditionEnds(field: string)
    ensures var r := CleanCondition(field);
      r != [] && HasOpen(r) ==> !IsStripSpace(r[|r| - 1])
  {
    var t := Strip(field);
    var u := TrimOpen(t);
    if HasOpen(u) {
      assert CleanCondition(field) == u && u != [];
      assert u[|u| - 1] == t[|t| - 1];
    } else {
      NoOpenPrefix(u, |TrimClose(u)|);
    }
  }

  /** Where the condition starts in its field: after the strip-space and the run of `\s` and `(` that follow it. */
  function CleanStart(field: string): nat {
    var t := Strip(field);
    LeadingRun(field, IsStripSpace) + |t| - |TrimOpen(t)|
  }

  /** The characters TrimOpen(Strip(field)) leaves out at the front are strip-space, `\s` or `(`. */
  lemma OpenRunIsCleaned(field: string)
    ensures CleanedAt(field, TrimOpen(Strip(field)), CleanStart(field))
  {
    StripAt(field);
    OpenRunFrame(field, Strip(field), TrimOpen(Strip(field)), LeadingRun(field, IsStripSpace), CleanStart(field));
  }

  lemma OpenRunFrame(field: string, t: string, u: string, a0: nat, a: int)
    requires FramedAt(field, t, a0, IsStripSpace, IsStripSpace)
    requires a == a0 + |t| - |u|
    requires |u| <= |t| && u == t[|t| - |u|..]
    requires forall k :: 0 <= k < |t| - |u| ==> IsSpaceOrOpen(t[k])
    ensures CleanedAt(field, u, a)
  {
    forall k | a0 <= k < a ensures IsSpaceOrOpen(field[k]) {
      assert field[k] == t[k - a0];
    }
  }

  /** Cutting the trailing run of `\s` and `)` off a cleaned u keeps it cleaned, and adds no `(`. */
  lemma CloseRunIsCleaned(field: string, u: string, v: string, a: int)
    requires CleanedAt(field, u, a)
    requires !HasOpen(u)
    requires |v| <= |u| && v == u[..|v|]
    requires forall k :: |v| <= k < |u| ==> IsSpaceOrClose(u[k])
    ensures !HasOpen(v)
    ensures CleanedAt(field, v, a)
  {
    NoOpenPrefix(u, |v|);
    forall k | a + |v| <= k < a + |u| ensures IsSpaceOrClose(field[k]) {
      assert field[k] == u[k - a];
    }
  }

  /** Removes the leading run of white space and `(`. */
  function TrimOpen(t: string): (u: string)
    ensures |u| <= |t| && u == t[|t| - |u|..]
    ensures u != [] ==> !IsSpaceOrOpen(u[0])
    ensures forall k :: 0 <= k < |t| - |u| ==> IsSpaceOrOpen(t[k])
  {
    t[LeadingRun(t, IsSpaceOrOpen)..]
  }

  /** Removes the trailing run of white space and `)`. */
  function TrimClose(u: string): (v: string)
    ensures |v| <= |u| && v == u[..|v|]
    ensures v != [] ==> !IsSpaceOrClose(v[|v| - 1]) && v[0] == u[0]
    ensures forall k :: |v| <= k < |u| ==> IsSpaceOrClose(u[k])
  {
    u[..|u| - TrailingRun(u, IsSpaceOrClose)]
  }

  /** SelectCommand#conditions: the filter split on its boolean connectives, each piece cleaned. */
  function Conditions(c: Command): (r: seq<string>)
    requires IsSelect(c) && "filter" in c.parameters
    ensures forall k :: 0 <= k < |r| ==> r[k] == [] || !IsSpaceOrOpen(r[k][0])
  {
    var fields := DropTrailingEmpty(ConnectiveFields(c.parameters["filter"]));
    seq(|fields|, k requires 0 <= k < |fields| => CleanCondition(fields[k]))
  }

  lemma {:induction false} ConnectiveCountSuffix(s: string, j: nat)
    requires j <= |s|
    ensures ConnectiveCount(s[j..]) <= ConnectiveCount(s)
    decreases j
  {
    if j > 0 {
      ConnectiveCountSuffix(s, j - 1);
      var t := s[j - 1..];
      assert t[1..] == s[j..];
    }
  }

  /** Splitting yields at most one field more than there are connectives. */
  lemma {:induction false} ConnectiveFieldsCount(s: string)
    ensures |ConnectiveFields(s)| <= ConnectiveCount(s) + 1
    decreases |s|
  {
    match FirstConnective(s, 0)
    case None =>
    case Some(j) =>
      ConnectiveFieldsCount(s[j + 2..]);
      ConnectiveCountSuffix(s, j);
      var t := s[j..];
      assert ConnectiveAt(t, 0);
      assert t[1..][1..] == s[j + 2..];
      ConnectiveCountSuffix(t[1..], 1);
  }

  /**
   * cond is what cleaning leaves of field: it sits where the leading run of
   * strip-space, `\s` and `(` ends, with only removable characters after it,
   * and starts (and, without `(`, ends) with a character cleaning would not remove.
   */
  predicate IsCleaned(field: string, cond: string) {
    && CleanedAt(field, cond, CleanStart(field))
    && (cond != [] ==> !IsSpaceOrOpen(cond[0]))
    && (cond != [] && !HasOpen(cond) ==> !IsSpaceOrClose(cond[|cond| - 1]))
    && (cond != [] && HasOpen(cond) ==> !IsStripSpace(cond[|cond| - 1]))
    && (cond != [] ==> CleanStart(field) + |cond| <= StrippedEnd(field))
    && (!HasOpen(cond) ==>
          forall k :: CleanStart(field) + |cond| <= k < StrippedEnd(field) ==> IsSpaceOrClose(field[k]))
  }

  /** Where the trailing strip-space run of the field starts. */
  function StrippedEnd(field: string): int {
    |field| - TrailingRun(field, IsStripSpace)
  }

  /**
   * A cleaned condition ends inside what String#strip keeps, and when it holds
   * no `(` only `\s` and `)` separate it from the field's trailing strip-space.
   */
  lemma CleanConditionCloseEnd(field: string)
    ensures var r, a := CleanCondition(field), CleanStart(field);
      && (r != [] ==> a + |r| <= StrippedEnd(field))
      && (!HasOpen(r) ==> forall k :: a + |r| <= k < StrippedEnd(field) ==> IsSpaceOrClose(field[k]))
  {
    var t := Strip(field);
    var u := TrimOpen(t);
    StripAt(field);
    StripEnd(field);
    CloseEndFrame(field, t, u, CleanCondition(field), LeadingRun(field, IsStripSpace), StrippedEnd(field), !HasOpen(u));
  }

  lemma CloseEndFrame(field: string, t: string, u: string, r: string, a0: nat, e: int, trimmed: bool)
    requires FramedAt(field, t, a0, IsStripSpace, IsStripSpace)
    requires e <= a0 + |t| && (t != [] ==> e == a0 + |t|)
    requires |u| <= |t| && u == t[|t| - |u|..]
    requires |r| <= |u| && r == u[..|r|]
    requires trimmed ==> forall k :: |r| <= k < |u| ==> IsSpaceOrClose(u[k])
    ensures r != [] ==> a0 + |t| - |u| + |r| <= e
    ensures trimmed ==> forall k :: a0 + |t| - |u| + |r| <= k < e ==> IsSpaceOrClose(field[k])
  {
    var a := a0 + |t| - |u|;
    if trimmed {
      forall k | a + |r| <= k < e ensures IsSpaceOrClose(field[k]) {
        assert field[k] == t[k - a0] == u[k - a];
      }
    }
  }

  /** Index of a `(` in a text that holds one. */
  lemma {:induction false} OpenIndex(s: string) returns (j: nat)
    requires HasOpen(s)
    ensures j < |s| && s[j] == '('
  {
    if s[0] == '(' {
      j := 0;
    } else {
      var i := OpenIndex(s[1..]);
      j := i + 1;
    }
  }

  /** Of two cleanings of one field, the second is no longer than the first. */
  lemma CleanedNotLonger(field: string, c1: string, c2: string)
    requires IsCleaned(field, c1) && IsCleaned(field, c2)
    ensures |c2| <= |c1|
  {
    if c2 != [] {
      if HasOpen(c2) {
        NotLongerWithOpen(field, CleanStart(field), c1, c2);
      } else {
        NotLongerWithoutOpen(field, CleanStart(field), StrippedEnd(field), c1, c2);
      }
    }
  }

  /** A cleaned condition holding `(` ends in a non-space, which no other cleaning leaves behind. */
  lemma NotLongerWithOpen(field: string, a: int, c1: string, c2: string)
    requires CleanedAt(field, c1, a) && CleanedAt(field, c2, a)
    requires c2 != [] && HasOpen(c2) && !IsStripSpace(c2[|c2| - 1])
    ensures |c2| <= |c1|
  {
    assert field[a + |c2| - 1] == c2[|c2| - 1];
    var j := OpenIndex(c2);
    assert field[a + j] == '(';
    HasOpenIsMembership(c1);
    if j < |c1| {
      assert c1[j] == '(';
    }
  }

  /** Without `(`, everything after the shorter condition up to the stripped end is `\s` or `)`. */
  lemma NotLongerWithoutOpen(field: string, a: int, e: int, c1: string, c2: string)
    requires CleanedAt(field, c1, a) && CleanedAt(field, c2, a)
    requires c2 != [] && !HasOpen(c2) && !IsSpaceOrClose(c2[|c2| - 1]) && a + |c2| <= e <= |field|
    requires !HasOpen(c1) ==> forall k :: a + |c1| <= k < e ==> IsSpaceOrClose(field[k])
    ensures |c2| <= |c1|
  {
    assert field[a + |c2| - 1] == c2[|c2| - 1];
    if |c1| <= |c2| {
      assert c1 == c2[..|c1|];
      NoOpenPrefix(c2, |c1|);
    }
  }

  /** IsCleaned pins the condition: it holds for exactly the condition `conditions` computes. */
  lemma IsCleanedExactly(field: string, cond: string)
    ensures IsCleaned(field, cond) <==> cond == CleanCondition(field)
  {
    CleanConditionIsCleaned(field);
    if IsCleaned(field, cond) {
      CleanedNotLonger(field, cond, CleanCondition(field));
      CleanedNotLonger(field, CleanCondition(field), cond);
    }
  }

  lemma CleanConditionIsCleaned(field: string)
    ensures IsCleaned(field, CleanCondition(field))
  {
    CleanConditionRemovesEnds(field);
    CleanConditionEnds(field);
    CleanConditionCloseEnd(field);
  }

  lemma ConditionsCount(c: Command)
    requires IsSelect(c) && "filter" in c.parameters
    ensures |Conditions(c)| <= ConnectiveCount(c.parameters["filter"]) + 1
  {
    var filter := c.parameters["filter"];
    var all := ConnectiveFields(filter);
    ConnectiveFieldsCount(filter);
    assert |Conditions(c)| == |DropTrailingEmpty(all)| <= |all|;
  }

  /**
   * `conditions` cleans each field of the leftmost split of the filter, after
   * the empty fields at the end are dropped: one condition per field, each a
   * piece of the filter, and at most one more than there are connectives.
   */
  lemma ConditionsShape(c: Command)
    requires IsSelect(c) && "filter" in c.parameters
    ensures var filter, conds := c.parameters["filter"], Conditions(c);
      var fields := DropTrailingEmpty(ConnectiveFields(filter));
      && LeftmostSplit(filter, ConnectiveFields(filter))
      && |conds| == |fields| <= ConnectiveCount(filter) + 1
      && forall k :: 0 <= k < |conds| ==> IsCleaned(fields[k], conds[k]) && IsSlice(conds[k], filter)
  {
    ConditionsCount(c);
    forall k | 0 <= k < |Conditions(c)|
      ensures var fields := DropTrailingEmpty(ConnectiveFields(c.parameters["filter"]));
        IsCleaned(fields[k], Conditions(c)[k]) && IsSlice(Conditions(c)[k], c.parameters["filter"])
    {
      ConditionAt(c, k);
    }
  }

  /** Decoding `a=1 && b=2` gives the two conditions `a=1` and `b=2`. */
  lemma ConditionsExample(c: Command)
    requires IsSelect(c) && "filter" in c.parameters && c.parameters["filter"] == "a=1 && b=2"
    ensures Conditions(c) == ["a=1", "b=2"]
  {
    var fields := ["a=1 ", " b=2"];
    ExampleFields(c.parameters["filter"], fields);
    assert DropTrailingEmpty(fields) == fields;
    ExampleCleaned(fields[0], "a=1");
    ExampleCleaned(fields[1], "b=2");
    var conds := Conditions(c);
    assert |conds| == 2 && conds[0] == CleanCondition(fields[0]) && conds[1] == CleanCondition(fields[1]);
    PairIs(conds, "a=1", "b=2");
  }

  lemma PairIs(s: seq<string>, x: string, y: string)
    requires |s| == 2 && s[0] == x && s[1] == y
    ensures s == [x, y]
  {
  }

  lemma ExampleFields(filter: string, fields: seq<string>)
    requires filter == "a=1 && b=2" && fields == ["a=1 ", " b=2"]
    ensures ConnectiveFields(filter) == fields
  {
    assert filter[..4] == fields[0] && filter[6..] == fields[1];
    assert !ConnectiveAt(fields[1], 0) && !ConnectiveAt(fields[1], 1) && !ConnectiveAt(fields[1], 2);
    assert LeftmostSplit(fields[1], fields[1..]);
    assert LeftmostSplit(filter, fields);
    LeftmostSplitUnique(filter, ConnectiveFields(filter), fields);
  }

  lemma ExampleCleaned(field: string, cond: string)
    requires (field == "a=1 " && cond == "a=1") || (field == " b=2" && cond == "b=2")
    ensures CleanCondition(field) == cond
  {
    ExampleStripped(field, cond);
    ExampleTrimmed(cond);
  }

  lemma ExampleStripped(field: string, cond: string)
    requires (field == "a=1 " && cond == "a=1") || (field == " b=2" && cond == "b=2")
    ensures Strip(field) == cond
  {
    var a := if field[0] == ' ' then 1 else 0;
    assert LeadingRun(field, IsStripSpace) == a by {
      assert LeadingRun(field[a..], IsStripSpace) == 0;
      if a == 1 {
        assert field[1..] == field[a..];
      }
    }
    var t := field[a..];
    assert TrailingRun(t, IsStripSpace) == |t| - 3 by {
      assert TrailingRun(t[..3], IsStripSpace) == 0;
      if |t| == 4 {
        assert t[..|t| - 1] == t[..3];
      }
    }
  }

  lemma ExampleTrimmed(cond: string)
    requires cond == "a=1" || cond == "b=2"
    ensures TrimOpen(cond) == cond && !HasOpen(cond) && TrimClose(cond) == cond
  {
    assert LeadingRun(cond, IsSpaceOrOpen) == 0;
    assert TrailingRun(cond, IsSpaceOrClose) == 0;
    HasOpenIsMembership(cond);
    assert '(' !in cond;
  }

  lemma ConditionAt(c: Command, k: nat)
    requires IsSelect(c) && "filter" in c.parameters && k < |Conditions(c)|
    ensures var filter := c.parameters["filter"];
      var fields := DropTrailingEmpty(ConnectiveFields(filter));
      k < |fields| && IsCleaned(fields[k], Conditions(c)[k]) && IsSlice(Conditions(c)[k], filter)
  {
    var filter := c.parameters["filter"];
    var all := ConnectiveFields(filter);
    var fields := DropTrailingEmpty(all);
    assert Conditions(c)[k] == CleanCondition(fields[k]);
    assert fields[k] == all[k];
    CleanConditionIsCleaned(fields[k]);
    CleanedSlice(fields[k], filter);
  }

  lemma CleanedSlice(field: string, filter: string)
    requires IsSlice(field, filter)
    ensures IsSlice(CleanCondition(field), filter)
  {
    var r := CleanCondition(field);
    CleanConditionRemovesEnds(field);
    var a := CleanStart(field);
    SliceOfSlice(r, field, filter, a, a + |r|);
  }
}
