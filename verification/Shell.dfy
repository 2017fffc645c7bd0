/**
 Quoting a path for the shell, and the shell that reads it back.

 The reader follows sections 2.2.1 to 2.2.3 and 2.3 of the POSIX Shell Command
 Language for one simple command. It answers only where every word stands for
 itself: an unquoted operator, expansion, pattern or reserved character makes
 the line something else than a list of literal words.
 */
module Shell {
  import opened Wrappers

  const SPECIAL := " \t\n'\"\\$`*?[]{}()|&;<>#~!"

  predicate ContainsAny(s: string, chars: string) {
    exists i :: 0 <= i < |s| && s[i] in chars
  }

  /** strings.ReplaceAll(s, "'", `'\''`). */
  function EscapeQuotes(s: string): string {
    if s == "" then ""
    else if s[0] == '\'' then "'\\''" + EscapeQuotes(s[1..])
    else [s[0]] + EscapeQuotes(s[1..])
  }

  function ShellQuote(path: string): string {
    if !ContainsAny(path, SPECIAL) then path else "'" + EscapeQuotes(path) + "'"
  }

  // ---------- The shell's reading ----------

  datatype Mode = Plain | Single | Double

  function Finish(current: Option<string>, words: seq<string>): seq<string> {
    match current
    case None => words
    case Some(w) => words + [w]
  }

  /** The word so far with a character added; a quote alone already starts a word. */
  function Grow(current: Option<string>, s: string): Option<string> {
    match current
    case None => Some(s)
    case Some(w) => Some(w + s)
  }

  function Scan(s: string, mode: Mode, current: Option<string>, words: seq<string>): Option<seq<string>>
    decreases |s|
  {
    if s == "" then
      if mode == Plain then Some(Finish(current, words)) else None
    else if s[0] == '\0' then None
    else match mode
      case Single =>
        if s[0] == '\'' then Scan(s[1..], Plain, current, words)
        else Scan(s[1..], Single, Grow(current, [s[0]]), words)
      case Double =>
        if s[0] == '"' then Scan(s[1..], Plain, current, words)
        else if s[0] in "$`" then None
        else if s[0] == '\\' && |s| >= 2 && s[1] == '\n' then Scan(s[2..], Double, current, words)
        else if s[0] == '\\' && |s| >= 2 && s[1] in "$`\"\\" then Scan(s[2..], Double, Grow(current, [s[1]]), words)
        else Scan(s[1..], Double, Grow(current, [s[0]]), words)
      case Plain =>
        if s[0] == '\n' then
          if |s| == 1 then Some(Finish(current, words)) else None
        else if s[0] in " \t" then Scan(s[1..], Plain, None, Finish(current, words))
        else if s[0] == '\'' then Scan(s[1..], Single, Grow(current, ""), words)
        else if s[0] == '"' then Scan(s[1..], Double, Grow(current, ""), words)
        else if s[0] == '\\' then
          if |s| == 1 || s[1] == '\0' then None
          else if s[1] == '\n' then Scan(s[2..], Plain, current, words)
          else Scan(s[2..], Plain, Grow(current, [s[1]]), words)
        else if s[0] == '#' && current == None then Some(words)
        else if s[0] == '#' || (s[0] == '~' && current.Some?) then Scan(s[1..], Plain, Grow(current, [s[0]]), words)
        else if s[0] in "|&;<>()$`*?[]{}!~" then None
        else Scan(s[1..], Plain, Grow(current, [s[0]]), words)
  }

  /** The words of a command line, if it is one simple command of literal words. */
  function ParseLine(line: string): Option<seq<string>> {
    Scan(line, Plain, None, [])
  }

  // ---------- Quoting is undone by reading ----------

  predicate NoNul(s: string) {
    forall i :: 0 <= i < |s| ==> s[i] != '\0'
  }

  /** Characters outside the special set stand for themselves. */
  lemma {:induction false} ScanPlain(p: string, rest: string, current: Option<string>, words: seq<string>)
    requires NoNul(p) && !ContainsAny(p, SPECIAL)
    ensures Scan(p + rest, Plain, current, words) == Scan(rest, Plain, if p == "" then current else Grow(current, p), words)
    decreases |p|
  {
    if p == "" {
      assert p + rest == rest;
    } else {
      var c := p[0];
      assert c !in SPECIAL && c != '\0';
      assert (p + rest)[0] == c && (p + rest)[1..] == p[1..] + rest;
      PlainCharacter(c);
      assert Scan(p + rest, Plain, current, words) == Scan(p[1..] + rest, Plain, Grow(current, [c]), words);
      ScanPlain(p[1..], rest, Grow(current, [c]), words);
      assert p == [c] + p[1..];
      GrowTwice(current, [c], p[1..]);
    }
  }

  lemma GrowTwice(current: Option<string>, a: string, b: string)
    ensures Grow(Grow(current, a), b) == Grow(current, a + b)
    ensures b == "" ==> Grow(current, a) == Grow(current, a + b)
  {
    if current.Some? {
      assert current.value + a + b == current.value + (a + b);
    }
    if b == "" {
      assert a + b == a;
    }
  }

  lemma PlainCharacter(c: char)
    requires c !in SPECIAL
    ensures c != '\n' && c !in " \t" && c != '\'' && c != '"' && c != '\\' && c != '#' && c !in "|&;<>()$`*?[]{}!~"
  {
    var i := SPECIAL;
    assert i[0] == ' ' && i[1] == '\t' && i[2] == '\n' && i[3] == '\'' && i[4] == '"' && i[5] == '\\' && i[6] == '$';
    assert i[7] == '`' && i[8] == '*' && i[9] == '?' && i[10] == '[' && i[11] == ']' && i[12] == '{' && i[13] == '}';
    assert i[14] == '(' && i[15] == ')' && i[16] == '|' && i[17] == '&' && i[18] == ';' && i[19] == '<' && i[20] == '>';
    assert i[21] == '#' && i[22] == '~' && i[23] == '!';
  }

  /** Inside single quotes, escaped text comes back as it was. */
  lemma {:induction false} ScanEscaped(p: string, rest: string, word: string, words: seq<string>)
    requires NoNul(p)
    ensures Scan(EscapeQuotes(p) + "'" + rest, Single, Some(word), words) == Scan(rest, Plain, Some(word + p), words)
    decreases |p|
  {
    if p == "" {
      assert EscapeQuotes(p) + "'" + rest == "'" + rest && word + p == word;
      assert ("'" + rest)[1..] == rest;
    } else {
      var tail := EscapeQuotes(p[1..]) + "'" + rest;
      ScanEscaped(p[1..], rest, word + [p[0]], words);
      assert word + [p[0]] + p[1..] == word + p;
      if p[0] == '\'' {
        assert EscapeQuotes(p) + "'" + rest == "'\\''" + tail;
        EscapedQuote(tail, word, words);
      } else {
        assert EscapeQuotes(p) + "'" + rest == [p[0]] + tail && ([p[0]] + tail)[1..] == tail;
      }
    }
  }

  /** The four characters that stand for a quote inside single quotes. */
  lemma EscapedQuote(tail: string, word: string, words: seq<string>)
    ensures Scan("'\\''" + tail, Single, Some(word), words) == Scan(tail, Single, Some(word + "'"), words)
  {
    var s := "'\\''" + tail;
    assert s[1..] == "\\''" + tail;
    var t := "\\''" + tail;
    assert t[2..] == "'" + tail && t[1] == '\'';
    assert ("'" + tail)[1..] == tail;
    assert Scan(s, Single, Some(word), words) == Scan(t, Plain, Some(word), words);
    assert Scan(t, Plain, Some(word), words) == Scan("'" + tail, Plain, Some(word + ['\'']), words);
    assert word + ['\''] + "" == word + "'";
  }

  lemma Blank(s: string, current: Option<string>, words: seq<string>)
    ensures Scan(" " + s, Plain, current, words) == Scan(s, Plain, None, Finish(current, words))
  {
    assert (" " + s)[1..] == s;
  }

  /** A quoted path is read as that path; an empty path leaves no word at all. */
  lemma ScanQuoted(p: string, rest: string, words: seq<string>)
    requires NoNul(p)
    ensures Scan(ShellQuote(p) + rest, Plain, None, words) == Scan(rest, Plain, if p == "" then None else Some(p), words)
  {
    if ContainsAny(p, SPECIAL) {
      var s := ShellQuote(p) + rest;
      assert s == "'" + (EscapeQuotes(p) + "'" + rest);
      assert s[1..] == EscapeQuotes(p) + "'" + rest;
      assert Scan(s, Plain, None, words) == Scan(s[1..], Single, Some(""), words);
      ScanEscaped(p, rest, "", words);
      assert "" + p == p;
    } else {
      ScanPlain(p, rest, None, words);
    }
  }

  lemma JoinedLine(word: string, more: string)
    ensures word + " " + more + "\n" == word + (" " + (more + "\n"))
  {
  }

  lemma EndOfLine(current: Option<string>, words: seq<string>)
    ensures Scan("\n", Plain, current, words) == Some(Finish(current, words))
  {
  }

  /** strings.Join with one space, of the quoted paths. */
  function QuoteAll(paths: seq<string>): string {
    if paths == [] then ""
    else if |paths| == 1 then ShellQuote(paths[0])
    else ShellQuote(paths[0]) + " " + QuoteAll(paths[1..])
  }

  function NonEmpty(paths: seq<string>): seq<string> {
    if paths == [] then [] else (if paths[0] == "" then [] else [paths[0]]) + NonEmpty(paths[1..])
  }

  lemma {:induction false} ScanAll(paths: seq<string>, words: seq<string>)
    requires forall p :: p in paths ==> NoNul(p)
    ensures Scan(QuoteAll(paths) + "\n", Plain, None, words) == Some(words + NonEmpty(paths))
    decreases |paths|
  {
    if paths == [] {
      assert QuoteAll(paths) + "\n" == "\n" && words + NonEmpty(paths) == words;
    } else {
      var p := paths[0];
      var first := if p == "" then [] else [p];
      var current := if p == "" then None else Some(p);
      hide Scan, ShellQuote, NoNul;
      assert words + NonEmpty(paths) == words + first + NonEmpty(paths[1..]);
      assert Finish(current, words) == words + first;
      if |paths| == 1 {
        ScanQuoted(p, "\n", words);
        assert paths[1..] == [] && words + first + [] == words + first;
        EndOfLine(current, words);
      } else {
        var rest := " " + (QuoteAll(paths[1..]) + "\n");
        assert QuoteAll(paths) == ShellQuote(p) + " " + QuoteAll(paths[1..]);
        hide QuoteAll, NonEmpty, Finish;
        JoinedLine(ShellQuote(p), QuoteAll(paths[1..]));
        ScanQuoted(p, rest, words);
        Blank(QuoteAll(paths[1..]) + "\n", current, words);
        ScanAll(paths[1..], words + first);
      }
    }
  }

  /** The line an operator pastes. */
  function RepairLine(paths: seq<string>): string {
    "    chmod 0600 " + QuoteAll(paths) + "\n"
  }

  /**
   The repair line is the command `chmod 0600` with the paths as its further
   words, in order, whatever characters they contain; empty paths are the one
   exception, and they disappear.
   */
  lemma RepairLineReads(paths: seq<string>)
    requires forall p :: p in paths ==> NoNul(p)
    ensures ParseLine(RepairLine(paths)) == Some(["chmod", "0600"] + NonEmpty(paths))
    ensures ParseLine(RepairLine(paths)) == Some(["chmod", "0600"] + paths) <==> "" !in paths
  {
    var end := QuoteAll(paths) + "\n";
    CommandReads(end);
    Regrouped(QuoteAll(paths));
    ScanAll(paths, ["chmod", "0600"]);
    NonEmptyKeeps(paths);
    AfterCommand(NonEmpty(paths), paths);
  }

  lemma Regrouped(q: string)
    ensures "    chmod 0600 " + q + "\n" == " " + (" " + (" " + (" " + ("chmod" + (" " + ("0600" + (" " + (q + "\n"))))))))
  {
  }

  /** The command and its mode are the first two words. */
  lemma CommandReads(end: string)
    ensures Scan(" " + (" " + (" " + (" " + ("chmod" + (" " + ("0600" + (" " + end))))))), Plain, None, [])
         == Scan(end, Plain, None, ["chmod", "0600"])
  {
    hide Scan, ContainsAny;
    var fromMode := "0600" + (" " + end);
    var fromCommand := "chmod" + (" " + fromMode);
    Blank(" " + (" " + (" " + fromCommand)), None, []);
    Blank(" " + (" " + fromCommand), None, []);
    Blank(" " + fromCommand, None, []);
    Blank(fromCommand, None, []);
    Ordinary();
    ScanPlain("chmod", " " + fromMode, None, []);
    Blank(fromMode, Some("chmod"), []);
    ScanPlain("0600", " " + end, None, ["chmod"]);
    Blank(end, Some("0600"), ["chmod"]);
    assert [] + ["chmod"] == ["chmod"] && ["chmod"] + ["0600"] == ["chmod", "0600"];
  }

  lemma Ordinary()
    ensures !ContainsAny("chmod", SPECIAL) && !ContainsAny("0600", SPECIAL)
    ensures NoNul("chmod") && NoNul("0600")
  {
  }

  lemma AfterCommand(a: seq<string>, b: seq<string>)
    ensures ["chmod", "0600"] + a == ["chmod", "0600"] + b <==> a == b
  {
    assert (["chmod", "0600"] + a)[2..] == a && (["chmod", "0600"] + b)[2..] == b;
  }

  lemma {:induction false} NonEmptyKeeps(paths: seq<string>)
    ensures NonEmpty(paths) == paths <==> "" !in paths
    ensures |NonEmpty(paths)| <= |paths|
  {
    if paths != [] {
      NonEmptyKeeps(paths[1..]);
      assert paths == [paths[0]] + paths[1..];
      if paths[0] == "" {
        assert |NonEmpty(paths)| < |paths|;
      } else {
        assert NonEmpty(paths)[1..] == NonEmpty(paths[1..]);
      }
    }
  }
}
