/**
 * The pure, string-level half of the chat server's command handling
 * (server.c): the command table, the `sscanf("%100s")` token scanner,
 * the classification of an incoming line, and the fixed reply texts.
 *
 * Strings are the C strings the server sees: the bytes of the receive
 * buffer up to (not including) the terminating NUL.
 */
module Commands {

  /** Size of every reply buffer (`MAXDATASIZE`). */
  const MaxDataSize := 2048

  /** Field width of the `%100s` conversions used to scan tokens. */
  const TokenCap := 100

  // Indices into the command table, in the order of the source's enum.
  const CmdWelcome := 0
  const CmdNick := 1
  const CmdRoom := 2
  const CmdList := 3
  const CmdHelp := 4
  /** Number of commands in the table. */
  const NCmd := 5
  /** Classification of a line that is not a recognised command. */
  const NotCmd := 6
  /** Classification of an empty line. */
  const Empty := -1

  /** The fixed command table `commands[]`, indexed by the constants above. */
  const Table: seq<string> := ["!welcome", "!nick", "!room", "!list", "!help"]

  const WelcomeText: string :=
    "Welcome to oss chat!\n" +
    "There are %d available rooms.\n" +
    "To see list of available command type '!help'.\n" +
    "To see this message again type '!welcome'.\n"

  const NickChanged: string := "Nickname was successfully changed.\n"

  const NickMissing: string := "Missed argument: 'newnick'.\n"

  const HelpHeader: string := "The list of available commands:\n"

  /** The characters C's `isspace` accepts in the "C" locale. */
  predicate IsSpace(c: char) {
    c == ' ' || c == '\t' || c == '\n' || c == '\U{000B}' || c == '\U{000C}' || c == '\r'
  }

  predicate NoSpace(s: string) {
    forall i :: 0 <= i < |s| ==> !IsSpace(s[i])
  }

  /** What is left of `s` once its leading white space is skipped. */
  function SkipSpace(s: string): (r: string)
    ensures |r| <= |s| && r == s[|s| - |r|..]
    ensures forall i :: 0 <= i < |s| - |r| ==> IsSpace(s[i])
    ensures r == [] || !IsSpace(r[0])
  {
    if |s| > 0 && IsSpace(s[0]) then SkipSpace(s[1..]) else s
  }

  /** The longest prefix of `s` of at most `cap` characters that holds no white space. */
  function TakeWord(s: string, cap: nat): (r: string)
    ensures |r| <= cap && |r| <= |s| && r == s[..|r|]
    ensures NoSpace(r)
    ensures |r| == cap || |r| == |s| || IsSpace(s[|r|])
  {
    if |s| == 0 || cap == 0 || IsSpace(s[0]) then [] else [s[0]] + TakeWord(s[1..], cap - 1)
  }

  /**
   * The token that `sscanf(s, "%100s", buf)` stores: white space is skipped,
   * then at most 100 non-white-space characters are read. The empty string
   * stands for a conversion that failed (`sscanf` returned 0 or EOF).
   */
  function ScanWord(s: string): (r: string)
    ensures |r| <= TokenCap && |r| <= |s|
    ensures NoSpace(r)
    ensures r == [] <==> forall i :: 0 <= i < |s| ==> IsSpace(s[i])
  {
    var rest := SkipSpace(s);
    assert rest != [] ==> !IsSpace(s[|s| - |rest|]);
    TakeWord(rest, TokenCap)
  }

  /** Index of the first table entry from `i` on that equals `tok`, else `NotCmd`. */
  function LookupFrom(tok: string, i: nat): (r: int)
    requires i <= NCmd
    decreases NCmd - i
    ensures r == NotCmd || i <= r < NCmd
    ensures r == NotCmd <==> forall j :: i <= j < NCmd ==> Table[j] != tok
    ensures r != NotCmd ==> Table[r] == tok && forall j :: i <= j < r ==> Table[j] != tok
  {
    if i == NCmd then NotCmd
    else if Table[i] == tok then i
    else LookupFrom(tok, i + 1)
  }

  /** The `strcmp` search of a token through the command table. */
  function Lookup(tok: string): (r: int)
    ensures r == NotCmd <==> tok !in Table
    ensures r != NotCmd ==> 0 <= r < NCmd && Table[r] == tok
  {
    LookupFrom(tok, 0)
  }

  /**
   * What `handle_message` returns for a line: `Empty` for the empty line,
   * `NotCmd` unless the line starts with '!', and otherwise the table index
   * of its first token, or `NotCmd` when that token is no command.
   */
  function Classify(msg: string): (r: int)
    ensures r == Empty <==> msg == []
    ensures msg != [] && msg[0] != '!' ==> r == NotCmd
    ensures msg != [] && msg[0] == '!' ==>
              if ScanWord(msg) in Table then 0 <= r < NCmd && Table[r] == ScanWord(msg) else r == NotCmd
  {
    if |msg| == 0 then Empty
    else if msg[0] != '!' then NotCmd
    else Lookup(ScanWord(msg))
  }

  /** The second token of a line, scanned from just after its first token (`p = msg + strlen(next_op)`). */
  function Argument(msg: string): (r: string)
    ensures |r| <= TokenCap && NoSpace(r)
  {
    ScanWord(msg[|ScanWord(msg)|..])
  }

  /** The line `command_help` writes for table entry `i`; commands it does not document get none. */
  function HelpLine(i: nat): (r: string)
    requires i < NCmd
    ensures r != [] <==> i == CmdWelcome || i == CmdNick || i == CmdHelp
    ensures r != [] ==> r[0] == '\'' && r[|r| - 1] == '\n'
  {
    if i == CmdWelcome then "'" + Table[CmdWelcome] + "' - prints server's welocme message.\n"
    else if i == CmdNick then "'" + Table[CmdNick] + " newnick' - sets 'newnick' to user.\n"
    else if i == CmdHelp then "'" + Table[CmdHelp] + "' - prints list of available commands and their syntax.\n"
    else ""
  }

  /** The help lines of table entries `i` to the end, in table order. */
  function HelpFrom(i: nat): (r: string)
    requires i <= NCmd
    decreases NCmd - i
    ensures r == [] <==> i > CmdHelp
    ensures r != [] ==> r[0] == '\'' && r[|r| - 1] == '\n'
  {
    if i == NCmd then "" else HelpLine(i) + HelpFrom(i + 1)
  }

  /** The reply to `!help`. */
  function HelpText(): (r: string)
    ensures |r| > |HelpHeader| && HelpHeader <= r
    ensures r[|HelpHeader|] == '\''
  {
    HelpHeader + HelpFrom(CmdWelcome)
  }

  /** Every reply text fits, with its terminating NUL, in a `MAXDATASIZE` buffer. */
  lemma RepliesFitBuffer()
    ensures |HelpText()| < MaxDataSize
    ensures |WelcomeText| < MaxDataSize
    ensures |NickChanged| < MaxDataSize && |NickMissing| < MaxDataSize
  {
  }

  /** `!room` and `!list` get no help line, so the tail of the help text is the `!nick` and `!help` lines. */
  lemma HelpSkipsUndocumented()
    ensures HelpLine(CmdRoom) == [] && HelpLine(CmdList) == []
    ensures HelpFrom(CmdNick) == HelpLine(CmdNick) + HelpLine(CmdHelp)
  {
    assert HelpFrom(CmdList) == HelpLine(CmdHelp);
    assert HelpFrom(CmdRoom) == HelpLine(CmdHelp);
  }

  /** `!help` documents exactly `!welcome`, `!nick` and `!help`, in table order, under the header. */
  lemma HelpListsDocumentedCommands()
    ensures HelpText() == HelpHeader + HelpLine(CmdWelcome) + HelpLine(CmdNick) + HelpLine(CmdHelp)
  {
    HelpSkipsUndocumented();
    var w, n, h := HelpLine(CmdWelcome), HelpLine(CmdNick), HelpLine(CmdHelp);
    assert HelpFrom(0) == w + (n + h);
    assert HelpHeader + (w + (n + h)) == HelpHeader + w + n + h;
  }

  /** Each help line opens with the quoted name of the command it documents. */
  lemma HelpLinesNameTheirCommand(i: nat)
    requires i < NCmd && HelpLine(i) != []
    ensures HelpLine(i)[..|Table[i]| + 1] == "'" + Table[i]
  {
  }

  /** A '!' line has no leading white space, so its token is its longest space-free prefix, capped at 100. */
  lemma {:induction false} CommandTokenIsPrefix(msg: string)
    requires msg != [] && msg[0] == '!'
    ensures ScanWord(msg) == TakeWord(msg, TokenCap)
    ensures ScanWord(msg) != [] && ScanWord(msg)[0] == '!'
  {
    assert !IsSpace(msg[0]);
  }

  /**
   * The argument of a recognised command is read from what follows the
   * command name itself: the line is the name, then white space, then the
   * argument (or nothing but white space when the argument is missing).
   */
  lemma {:induction false} ArgumentFollowsCommand(msg: string)
    requires 0 <= Classify(msg) < NCmd
    ensures msg[..|Table[Classify(msg)]|] == Table[Classify(msg)]
    ensures var rest := msg[|Table[Classify(msg)]|..];
            Argument(msg) == ScanWord(rest) &&
            (rest == [] || IsSpace(rest[0]))
  {
    CommandTokenIsPrefix(msg);
    var tok := ScanWord(msg);
    assert |tok| < TokenCap by {
      assert tok in Table;
    }
  }

  /** A space-free string within the cap is read whole. */
  lemma {:induction false} TakeWordWhole(w: string, cap: nat)
    requires NoSpace(w) && |w| <= cap
    ensures TakeWord(w, cap) == w
  {
    if w != [] {
      TakeWordWhole(w[1..], cap - 1);
    }
  }

  /** Reading stops at the first white space after a space-free word within the cap. */
  lemma {:induction false} TakeWordStopsAtSpace(w: string, rest: string, cap: nat)
    requires NoSpace(w) && |w| <= cap
    requires rest == [] || IsSpace(rest[0])
    ensures TakeWord(w + rest, cap) == w
  {
    if w == [] {
    } else {
      assert (w + rest)[1..] == w[1..] + rest;
      TakeWordStopsAtSpace(w[1..], rest, cap - 1);
    }
  }

  /**
   * A line that is a command name, optionally followed by white space and
   * more, is that command, and its argument is the first token of the rest.
   */
  lemma {:induction false} CommandLineClassifies(i: nat, rest: string)
    requires i < NCmd
    requires rest == [] || IsSpace(rest[0])
    ensures Classify(Table[i] + rest) == i
    ensures Argument(Table[i] + rest) == ScanWord(rest)
  {
    var msg := Table[i] + rest;
    assert msg[0] == '!';
    assert NoSpace(Table[i]);
    CommandTokenIsPrefix(msg);
    TakeWordStopsAtSpace(Table[i], rest, TokenCap);
    assert msg[|Table[i]|..] == rest;
  }

  /** A space-free word within the cap, after one blank and before an optional newline, is scanned whole. */
  lemma {:induction false} ScanSpacedWord(word: string, eol: string)
    requires word != [] && NoSpace(word) && |word| <= TokenCap
    requires eol == [] || eol == "\n"
    ensures ScanWord(" " + word + eol) == word
  {
    var rest := " " + word + eol;
    assert SkipSpace(rest) == word + eol by {
      assert rest[1..] == word + eol;
      assert !IsSpace((word + eol)[0]);
    }
    TakeWordStopsAtSpace(word, eol, TokenCap);
  }

  /** The line `!nick <word>`, with a newline or not, is the `!nick` command with argument `<word>`. */
  lemma NickLineArgument(word: string, eol: string)
    requires word != [] && NoSpace(word) && |word| <= TokenCap
    requires eol == [] || eol == "\n"
    ensures Classify(Table[CmdNick] + " " + word + eol) == CmdNick
    ensures Argument(Table[CmdNick] + " " + word + eol) == word
  {
    var rest := " " + word + eol;
    assert Table[CmdNick] + " " + word + eol == Table[CmdNick] + rest;
    CommandLineClassifies(CmdNick, rest);
    ScanSpacedWord(word, eol);
  }

  /** No command name is a proper prefix of another. */
  lemma NoNameExtendsAnother(i: nat, x: string)
    requires i < NCmd && x != []
    ensures Table[i] + x !in Table
  {
    var msg := Table[i] + x;
    assert msg[..|Table[i]|] == Table[i];
    forall j | 0 <= j < NCmd
      ensures Table[j] != msg
    {
      if j == 0 && i != 0 {
        assert Table[0][1] != Table[i][1];
      } else {
        assert |Table[j]| <= |Table[i]|;
      }
    }
  }

  /**
   * Matching is exact: a command name with more non-blank characters glued
   * to it (`!nickname`, `!help2`) is an ordinary line.
   */
  lemma ExactMatchOnly(i: nat, x: string)
    requires i < NCmd && x != [] && NoSpace(x) && |Table[i] + x| <= TokenCap
    ensures Classify(Table[i] + x) == NotCmd
  {
    var msg := Table[i] + x;
    assert NoSpace(Table[i]) && msg[0] == '!';
    assert NoSpace(msg);
    CommandTokenIsPrefix(msg);
    TakeWordWhole(msg, TokenCap);
    NoNameExtendsAnother(i, x);
  }

  /** Matching is case-sensitive. */
  lemma CaseSensitiveMatch()
    ensures Classify("!Help") == NotCmd
  {
    assert NoSpace("!Help");
    CommandTokenIsPrefix("!Help");
    TakeWordWhole("!Help", TokenCap);
  }

  /** Three sample lines; the general rule is `Classify`'s contract. */
  lemma LeadingSpaceIsNotCommand()
    ensures Classify(" !help") == NotCmd
    ensures Classify("hello\n") == NotCmd
    ensures Classify("") == Empty
  {
  }
}
