// The client's command line: naming commands, splitting an input line into a
// command and its arguments, the bounded message history and the exit flag.

module UiHandler {
  import opened CString
  import opened Protocol

  /** Characters of the input buffer, terminator included. */
  const UI_MAX_INPUT_LENGTH: int := 512
  /** Messages the history keeps. */
  const UI_MAX_HISTORY: int := 100
  /** Characters of arg1, terminator included. */
  const ARG1_SIZE: int := 256
  /** Characters of arg2, terminator included. */
  const ARG2_SIZE: int := 512
  /** Characters of the command word sscanf reads. */
  const COMMAND_WIDTH: int := 63

  datatype UserCommand =
    | CmdUnknown | CmdHelp | CmdLogin | CmdLogout | CmdSend | CmdBroadcast
    | CmdUsers | CmdStatus | CmdExit | CmdClear | CmdHistory | CmdMe

  datatype ParsedCommand = ParsedCommand(kind: UserCommand, arg1: string, arg2: string, raw: string)

  /** What ParsedCommand cmd = {0} holds. */
  const EmptyCommand: ParsedCommand := ParsedCommand(CmdUnknown, "", "", "")

  // ---------------------------------------------------------------------
  // Command names

  /** The names each command answers to. */
  function Names(c: UserCommand): set<string> {
    match c
    case CmdUnknown => {}
    case CmdHelp => {"help"}
    case CmdLogin => {"login"}
    case CmdLogout => {"logout", "quit"}
    case CmdSend => {"send", "msg"}
    case CmdBroadcast => {"broadcast", "shout"}
    case CmdUsers => {"users", "who"}
    case CmdStatus => {"status"}
    case CmdExit => {"exit", "bye"}
    case CmdClear => {"clear", "cls"}
    case CmdHistory => {"history"}
    case CmdMe => {"me"}
  }

  /** Every name some command answers to. */
  const AllNames: set<string> :=
    {"help", "login", "logout", "quit", "send", "msg", "broadcast", "shout", "users", "who",
     "status", "exit", "bye", "clear", "cls", "history", "me"}

  /** The text string_to_command compares: one leading '/' is dropped. */
  function CommandName(s: string): string {
    if s != [] && s[0] == '/' then s[1..] else s
  }

  /** string_to_command: the command whose name the text is, after dropping
      one leading '/'; any other text is CMD_UNKNOWN. */
  function StringToCommand(s: string): (r: UserCommand)
    ensures r != CmdUnknown ==> CommandName(s) in Names(r)
    ensures r == CmdUnknown <==> CommandName(s) !in AllNames
  {
    if s == [] then CmdUnknown
    else
      var cmd := CommandName(s);
      if cmd == "help" then CmdHelp
      else if cmd == "login" then CmdLogin
      else if cmd == "logout" || cmd == "quit" then CmdLogout
      else if cmd == "send" || cmd == "msg" then CmdSend
      else if cmd == "broadcast" || cmd == "shout" then CmdBroadcast
      else if cmd == "users" || cmd == "who" then CmdUsers
      else if cmd == "status" then CmdStatus
      else if cmd == "exit" || cmd == "bye" then CmdExit
      else if cmd == "clear" || cmd == "cls" then CmdClear
      else if cmd == "history" then CmdHistory
      else if cmd == "me" then CmdMe
      else CmdUnknown
  }

  /** A name is read back as the command it names, with or without a slash. */
  lemma NameSelectsCommand(c: UserCommand, name: string)
    requires name in Names(c)
    ensures StringToCommand(name) == c
    ensures StringToCommand("/" + name) == c
  {
    assert CommandName("/" + name) == name by {
      assert ("/" + name)[1..] == name;
    }
    assert name in AllNames;
    assert CommandName(name) == name;
    SameCommandName(name, "/" + name);
  }

  /** Two non-empty inputs with the same command name select the same command. */
  lemma SameCommandName(s: string, t: string)
    requires s != [] && t != [] && CommandName(s) == CommandName(t)
    ensures StringToCommand(s) == StringToCommand(t)
  {
  }

  // ---------------------------------------------------------------------
  // sscanf conversions

  /** The number of leading characters of s that are not white space. */
  function WordLength(s: string): (n: nat)
    ensures n <= |s|
    ensures forall k :: 0 <= k < n ==> !IsSpace(s[k])
    ensures n == |s| || IsSpace(s[n])
  {
    if s == [] || IsSpace(s[0]) then 0 else 1 + WordLength(s[1..])
  }

  /** The number of leading characters of s other than '\n'. */
  function LineLength(s: string): (n: nat)
    ensures n <= |s|
    ensures forall k :: 0 <= k < n ==> s[k] != '\n'
    ensures n == |s| || s[n] == '\n'
  {
    if s == [] || s[0] == '\n' then 0 else 1 + LineLength(s[1..])
  }

  /** "%<width>s": skips white space, then reads at most width characters of a
      word; fails when no word follows. Gives the word and the unread text. */
  function ScanWord(s: string, width: nat): (r: Option<(string, string)>)
    ensures r.Some? ==> 0 < |r.value.0| <= width && !IsSpace(r.value.0[0])
    ensures r.Some? ==> forall k :: 0 <= k < |r.value.0| ==> !IsSpace(r.value.0[k])
  {
    var t := SkipSpaces(s);
    var n := Min(WordLength(t), width);
    if n == 0 then None else Some((t[..n], t[n..]))
  }

  /** "%<width>[^\n]": reads at most width characters up to a newline; fails
      when it would read none. */
  function ScanLine(s: string, width: nat): (r: Option<(string, string)>)
    ensures r.Some? ==> 0 < |r.value.0| <= width && r.value.0 <= s
  {
    var n := Min(LineLength(s), width);
    if n == 0 then None else Some((s[..n], s[n..]))
  }

  // ---------------------------------------------------------------------
  // ui_parse_command

  /** The arguments a slash command takes from the rest of its line. */
  function SlashArguments(kind: UserCommand, rest: string, raw: string): (r: ParsedCommand)
    ensures r.kind == kind && r.raw == raw
    ensures |r.arg1| < ARG1_SIZE && |r.arg2| < ARG2_SIZE
  {
    match kind
    case CmdSend =>
      (match ScanWord(rest, ARG1_SIZE - 1)
       case None => ParsedCommand(kind, "", "", raw)
       case Some(w) =>
         var text := ScanLine(SkipSpaces(w.1), ARG2_SIZE - 1);
         ParsedCommand(kind, w.0, if text.Some? then text.value.0 else "", raw))
    case CmdLogin => ParsedCommand(kind, Take(rest, ARG1_SIZE - 1), "", raw)
    case CmdStatus => ParsedCommand(kind, Take(rest, ARG1_SIZE - 1), "", raw)
    case CmdBroadcast => ParsedCommand(kind, "", Take(rest, ARG2_SIZE - 1), raw)
    case CmdMe => ParsedCommand(kind, "", Take(rest, ARG2_SIZE - 1), raw)
    case _ =>
      var w := ScanWord(rest, ARG1_SIZE - 1);
      ParsedCommand(kind, if w.Some? then w.value.0 else "", "", raw)
  }

  /** ui_parse_command on the characters of the input line. */
  function ParseCommand(input: string): (r: ParsedCommand)
    ensures input == [] ==> r == EmptyCommand
    ensures input != [] ==> r.raw == Take(input, UI_MAX_INPUT_LENGTH - 1)
    ensures |r.arg1| < ARG1_SIZE && |r.arg2| < ARG2_SIZE
    ensures input != [] && input[0] != '/' ==> r.kind in {CmdSend, CmdUnknown}
  {
    if input == [] then EmptyCommand
    else
      var raw := Take(input, UI_MAX_INPUT_LENGTH - 1);
      if input[0] == '/' then
        match ScanWord(input[1..], COMMAND_WIDTH)
        case None => ParsedCommand(StringToCommand(input[1..]), "", "", raw)
        case Some(c) =>
          var kind := StringToCommand(c.0);
          match ScanLine(SkipSpaces(c.1), ARG2_SIZE - 1)
          case None => ParsedCommand(kind, "", "", raw)
          case Some(rest) => SlashArguments(kind, rest.0, raw)
      else
        var sp := IndexOf(input, ' ');
        if sp < 0 then ParsedCommand(CmdSend, Take(input, ARG1_SIZE - 1), "", raw)
        else if sp < ARG1_SIZE then ParsedCommand(CmdSend, input[..sp], Take(input[sp + 1..], ARG2_SIZE - 1), raw)
        else ParsedCommand(CmdUnknown, "", "", raw)
  }

  /** A word: non-empty, without white space. */
  predicate IsWord(w: string) {
    w != [] && forall k :: 0 <= k < |w| ==> !IsSpace(w[k])
  }

  /** A rest of line sscanf takes whole: it starts with a non-blank and holds no newline. */
  predicate IsLineRest(t: string) {
    t != [] && !IsSpace(t[0]) && '\n' !in t
  }

  lemma WordLengthOfWord(w: string, s: string)
    requires IsWord(w) && (s == [] || IsSpace(s[0]))
    ensures WordLength(w + s) == |w|
  {
    var t := w + s;
    assert forall k :: 0 <= k < |w| ==> t[k] == w[k];
    assert |w| < |t| ==> t[|w|] == s[0];
  }

  lemma {:induction false} LineLengthOfLine(t: string)
    requires '\n' !in t
    ensures LineLength(t) == |t|
  {
    if t != [] {
      assert t[0] in t;
      assert forall c :: c in t[1..] ==> c in t;
      LineLengthOfLine(t[1..]);
    }
  }

  /** Scanning a word that fits the width, followed by a blank or the end. */
  lemma ScanWordOf(w: string, s: string, width: nat)
    requires IsWord(w) && |w| <= width && (s == [] || IsSpace(s[0]))
    ensures ScanWord(w + s, width) == Some((w, s))
  {
    assert SkipSpaces(w + s) == w + s;
    WordLengthOfWord(w, s);
    assert (w + s)[..|w|] == w;
    assert (w + s)[|w|..] == s;
  }

  /** Scanning a line rest that fits the width takes all of it. */
  lemma ScanLineOf(t: string, width: nat)
    requires IsLineRest(t) && |t| <= width
    ensures SkipSpaces(t) == t
    ensures ScanLine(t, width) == Some((t, []))
  {
    LineLengthOfLine(t);
    assert t[..|t|] == t;
    assert t[|t|..] == [];
  }

  /** The slash line "/name rest" for a command word that fits: the command
      it names, and its arguments taken from rest. */
  lemma SlashLine(name: string, rest: string)
    requires IsWord(name) && |name| <= COMMAND_WIDTH
    requires IsLineRest(rest) && |rest| < ARG2_SIZE
    ensures ParseCommand("/" + name + " " + rest) ==
      SlashArguments(StringToCommand(name), rest, Take("/" + name + " " + rest, UI_MAX_INPUT_LENGTH - 1))
  {
    var input := "/" + name + " " + rest;
    assert input[1..] == name + (" " + rest);
    ScanWordOf(name, " " + rest, COMMAND_WIDTH);
    assert SkipSpaces(" " + rest) == SkipSpaces(rest) by {
      assert (" " + rest)[1..] == rest;
    }
    ScanLineOf(rest, ARG2_SIZE - 1);
    ParseSlash(input, (name, " " + rest), (rest, []));
  }

  /** The slash branch of ParseCommand once both scans have succeeded. */
  lemma ParseSlash(input: string, word: (string, string), line: (string, string))
    requires input != [] && input[0] == '/'
    requires ScanWord(input[1..], COMMAND_WIDTH) == Some(word)
    requires ScanLine(SkipSpaces(word.1), ARG2_SIZE - 1) == Some(line)
    ensures ParseCommand(input) ==
      SlashArguments(StringToCommand(word.0), line.0, Take(input, UI_MAX_INPUT_LENGTH - 1))
  {
  }

  /** "/send user text" (or "/msg"): the recipient in arg1, the text in arg2. */
  lemma SlashSendSplits(name: string, user: string, text: string)
    requires name in Names(CmdSend)
    requires IsWord(user) && |user| < ARG1_SIZE
    requires IsLineRest(text) && |user| + 1 + |text| < ARG2_SIZE
    ensures var r := ParseCommand("/" + name + " " + user + " " + text);
      r.kind == CmdSend && r.arg1 == user && r.arg2 == text
  {
    var rest := user + " " + text;
    WordThenLine(user, text);
    NameSelectsCommand(CmdSend, name);
    assert "/" + name + " " + user + " " + text == "/" + name + " " + rest;
    SlashLine(name, rest);
    SendArguments(user, text, Take("/" + name + " " + rest, UI_MAX_INPUT_LENGTH - 1));
  }

  /** A word, a blank and a line rest make a line rest. */
  lemma WordThenLine(user: string, text: string)
    requires IsWord(user) && IsLineRest(text)
    ensures IsLineRest(user + " " + text)
  {
    var rest := user + " " + text;
    assert rest[0] == user[0];
    assert forall k :: 0 <= k < |rest| ==> rest[k] != '\n' by {
      assert forall k :: 0 <= k < |user| ==> rest[k] == user[k];
      assert forall k :: |user| < k < |rest| ==> rest[k] == text[k - |user| - 1];
    }
  }

  /** The send arguments "user text": the word, then the rest of the line. */
  lemma SendArguments(user: string, text: string, raw: string)
    requires IsWord(user) && |user| < ARG1_SIZE
    requires IsLineRest(text) && |text| < ARG2_SIZE
    ensures var r := SlashArguments(CmdSend, user + " " + text, raw);
      r.arg1 == user && r.arg2 == text
  {
    assert user + " " + text == user + (" " + text);
    ScanWordOf(user, " " + text, ARG1_SIZE - 1);
    assert SkipSpaces(" " + text) == SkipSpaces(text) by {
      assert (" " + text)[1..] == text;
    }
    ScanLineOf(text, ARG2_SIZE - 1);
  }

  /** "/login rest" and "/status rest" keep the whole rest in arg1;
      "/broadcast rest" and "/me rest" keep it in arg2. */
  lemma SlashWholeRest(c: UserCommand, name: string, rest: string)
    requires c in {CmdLogin, CmdStatus, CmdBroadcast, CmdMe} && name in Names(c)
    requires IsLineRest(rest) && |rest| < ARG2_SIZE
    ensures var r := ParseCommand("/" + name + " " + rest);
      && r.kind == c
      && (c in {CmdLogin, CmdStatus} ==> r.arg1 == Take(rest, ARG1_SIZE - 1) && r.arg2 == [])
      && (c in {CmdBroadcast, CmdMe} ==> r.arg1 == [] && r.arg2 == rest)
  {
    NameSelectsCommand(c, name);
    WholeRestNameIsWord(c, name);
    SlashLine(name, rest);
    TakeOfShort(rest, ARG2_SIZE - 1);
  }

  /** Any other command word, "/history 20 x" say, keeps only the first word
      of the rest, in arg1, and leaves arg2 empty. */
  lemma SlashFirstWordOnly(name: string, w: string, t: string)
    requires IsWord(name) && |name| <= COMMAND_WIDTH
    requires StringToCommand(name) !in {CmdSend, CmdLogin, CmdStatus, CmdBroadcast, CmdMe}
    requires IsWord(w) && |w| < ARG1_SIZE
    requires '\n' !in t && |w| + 1 + |t| < ARG2_SIZE
    ensures var r := ParseCommand("/" + name + " " + w + " " + t);
      r.kind == StringToCommand(name) && r.arg1 == w && r.arg2 == []
  {
    var rest := w + " " + t;
    WordThenAnyLine(w, t);
    assert "/" + name + " " + w + " " + t == "/" + name + " " + rest;
    SlashLine(name, rest);
    FirstWordArgument(StringToCommand(name), w, t, Take("/" + name + " " + rest, UI_MAX_INPUT_LENGTH - 1));
  }

  /** A word, a blank and any text without a newline make a line rest. */
  lemma WordThenAnyLine(w: string, t: string)
    requires IsWord(w) && '\n' !in t
    ensures IsLineRest(w + " " + t)
  {
    var rest := w + " " + t;
    assert rest[0] == w[0];
    assert forall k :: 0 <= k < |w| ==> rest[k] == w[k];
    assert forall k :: |w| < k < |rest| ==> rest[k] == t[k - |w| - 1];
  }

  /** The arguments of a command that reads one word: that word, nothing else. */
  lemma FirstWordArgument(kind: UserCommand, w: string, t: string, raw: string)
    requires kind !in {CmdSend, CmdLogin, CmdStatus, CmdBroadcast, CmdMe}
    requires IsWord(w) && |w| < ARG1_SIZE
    ensures SlashArguments(kind, w + " " + t, raw) == ParsedCommand(kind, w, "", raw)
  {
    assert w + " " + t == w + (" " + t);
    ScanWordOf(w, " " + t, ARG1_SIZE - 1);
  }

  /** The names of the commands that take the whole rest are short words. */
  lemma WholeRestNameIsWord(c: UserCommand, name: string)
    requires c in {CmdLogin, CmdStatus, CmdBroadcast, CmdMe} && name in Names(c)
    ensures IsWord(name) && |name| <= COMMAND_WIDTH
  {
    if c == CmdLogin {
      assert name == "login";
    } else if c == CmdStatus {
      assert name == "status";
    } else if c == CmdMe {
      assert name == "me";
    } else {
      assert name == "broadcast" || name == "shout";
    }
  }

  /** A line without '/' in front and with a blank: the text before the first
      blank is the recipient when it fits arg1, and then the rest is the
      message; a longer recipient leaves the command unknown. */
  lemma PlainLineSplits(user: string, text: string)
    requires ' ' !in user && (user == [] || user[0] != '/')
    ensures var r := ParseCommand(user + " " + text);
      && (|user| < ARG1_SIZE ==>
            r.kind == CmdSend && r.arg1 == user && r.arg2 == Take(text, ARG2_SIZE - 1))
      && (|user| >= ARG1_SIZE ==> r.kind == CmdUnknown && r.arg1 == [] && r.arg2 == [])
  {
    var input := user + " " + text;
    assert input[|user|] == ' ';
    assert input[..|user|] == user;
    assert input[|user| + 1..] == text;
    assert IndexOf(input, ' ') == |user|;
  }

  /** A line without '/' in front and without a blank names only a recipient. */
  lemma PlainLineRecipient(input: string)
    requires input != [] && input[0] != '/' && ' ' !in input
    ensures var r := ParseCommand(input);
      r.kind == CmdSend && r.arg1 == Take(input, ARG1_SIZE - 1) && r.arg2 == []
  {
  }

  // ---------------------------------------------------------------------
  // History

  /** ui_add_to_history on the stored messages: appended while there is room,
      otherwise the oldest is dropped and the new one goes last. */
  function AddEntry(h: seq<Message>, m: Message): (r: seq<Message>)
    requires |h| <= UI_MAX_HISTORY
    ensures |r| <= UI_MAX_HISTORY
  {
    if |h| < UI_MAX_HISTORY then h + [m] else h[1..] + [m]
  }

  /** The last n elements of s, or all of s when it is shorter. */
  function LastN(s: seq<Message>, n: nat): (r: seq<Message>)
    ensures |r| == Min(|s|, n)
  {
    if |s| <= n then s else s[|s| - n..]
  }

  /** Adding a message keeps exactly the last 100 of the history and the new message. */
  lemma AddEntryKeepsLast(h: seq<Message>, m: Message)
    requires |h| <= UI_MAX_HISTORY
    ensures AddEntry(h, m) == LastN(h + [m], UI_MAX_HISTORY)
  {
    if |h| == UI_MAX_HISTORY {
      assert (h + [m])[|h + [m]| - UI_MAX_HISTORY..] == h[1..] + [m];
    }
  }

  /** The history after adding every message of ms to an empty one, in order. */
  function AddAll(ms: seq<Message>): (r: seq<Message>)
    ensures |r| <= UI_MAX_HISTORY
  {
    if ms == [] then [] else AddEntry(AddAll(ms[..|ms| - 1]), ms[|ms| - 1])
  }

  /** The history always holds the last 100 messages added, oldest first. */
  lemma {:induction false} HistoryIsLastHundred(ms: seq<Message>)
    ensures AddAll(ms) == LastN(ms, UI_MAX_HISTORY)
  {
    if ms != [] {
      var init := ms[..|ms| - 1];
      HistoryIsLastHundred(init);
      AddEntryKeepsLast(AddAll(init), ms[|ms| - 1]);
      assert init + [ms[|ms| - 1]] == ms;
      LastNSnoc(init, ms[|ms| - 1]);
    }
  }

  lemma LastNSnoc(s: seq<Message>, m: Message)
    ensures LastN(LastN(s, UI_MAX_HISTORY) + [m], UI_MAX_HISTORY) == LastN(s + [m], UI_MAX_HISTORY)
  {
    var n := UI_MAX_HISTORY;
    if |s| > n {
      assert LastN(s, n) + [m] == (s + [m])[|s| - n..];
      assert ((s + [m])[|s| - n..])[1..] == (s + [m])[|s| + 1 - n..];
    }
  }

  /** ui_add_to_history called with a pointer into the history itself, at
      slot i. With room left the message of slot i is appended. On a full
      history the memmove runs first, so the copy reads slot i after the
      shift: the message that followed it, or the last one again for the last
      slot. */
  function AddFromSlot(h: seq<Message>, i: int): (r: seq<Message>)
    requires 0 <= i < |h| <= UI_MAX_HISTORY
    ensures |r| == Min(|h| + 1, UI_MAX_HISTORY)
    ensures |h| < UI_MAX_HISTORY ==> r == h + [h[i]]
    ensures |h| == UI_MAX_HISTORY ==>
      r[..UI_MAX_HISTORY - 1] == h[1..] &&
      r[UI_MAX_HISTORY - 1] == (if i + 1 < |h| then h[i + 1] else h[i])
  {
    if |h| < UI_MAX_HISTORY then h + [h[i]]
    else
      var shifted := h[1..] + [h[|h| - 1]];
      shifted[UI_MAX_HISTORY - 1 := shifted[i]]
  }

  /** ui_show_history as written: the loop re-reads history_size, and printing
      the message of slot i adds the contents of that slot to the history
      again. Gives the messages printed and the history left behind. */
  function ShowFrom(h: seq<Message>, i: int): (r: (seq<Message>, seq<Message>))
    requires 0 <= i && |h| <= UI_MAX_HISTORY
    ensures |r.1| <= UI_MAX_HISTORY
    decreases UI_MAX_HISTORY - i
  {
    if i >= |h| then ([], h)
    else
      var next := ShowFrom(AddFromSlot(h, i), i + 1);
      ([h[i]] + next.0, next.1)
  }

  /** The index the display starts from once count is clamped to the history
      size; a negative count starts past the end and shows nothing. */
  function ShowStart(size: int, count: int): (start: int)
    ensures 0 <= count ==> start == size - Min(count, size)
    ensures 0 <= count && 0 <= size ==> 0 <= start <= size
    ensures count < 0 ==> start > size
  {
    size - (if count > size then size else count)
  }

  /** ui_show_history(count) as written, from a non-empty history. The loop
      always runs until the history is full. */
  function ShowHistoryAsWritten(h: seq<Message>, count: int): (r: (seq<Message>, seq<Message>))
    requires 0 < |h| <= UI_MAX_HISTORY
    ensures 0 < count ==> |r.1| == UI_MAX_HISTORY
    ensures count <= 0 ==> r == ([], h)
  {
    if 0 < count then ShowFromLength(h, ShowStart(|h|, count)); ShowFrom(h, ShowStart(|h|, count))
    else ShowFrom(h, ShowStart(|h|, count))
  }

  /** From any start below the history size the loop runs on until index 100,
      so it prints 100 - start messages. */
  lemma {:induction false} ShowFromLength(h: seq<Message>, i: int)
    requires 0 <= i < |h| <= UI_MAX_HISTORY
    ensures |ShowFrom(h, i).0| == UI_MAX_HISTORY - i
    ensures |ShowFrom(h, i).1| == UI_MAX_HISTORY
    decreases UI_MAX_HISTORY - i
  {
    var h' := AddFromSlot(h, i);
    if i + 1 < |h'| {
      ShowFromLength(h', i + 1);
    } else {
      assert |h'| == UI_MAX_HISTORY && i + 1 == UI_MAX_HISTORY;
    }
  }

  /** With room left in the history, asking for count messages prints
      100 - size more than that: a history of one message shows it 100 times. */
  lemma ShowHistoryPrintsTooMany(h: seq<Message>, count: int)
    requires 0 < |h| <= UI_MAX_HISTORY && 0 < count
    ensures |ShowHistoryAsWritten(h, count).0| == Min(count, |h|) + (UI_MAX_HISTORY - |h|)
  {
    ShowFromLength(h, ShowStart(|h|, count));
  }

  /** On a full history the count is right but the order is not: each print
      re-adds the message that followed the printed one, so asking for the
      last three shows the third last, the last, then the second last. */
  lemma FullHistoryShownOutOfOrder(h: seq<Message>)
    requires |h| == UI_MAX_HISTORY
    ensures ShowHistoryAsWritten(h, 2).0 == [h[98], h[99]]
    ensures ShowHistoryAsWritten(h, 3).0 == [h[97], h[99], h[98]]
  {
    var a := AddFromSlot(h, 98);
    assert a[99] == h[99] && a[..99] == h[1..];
    var b := AddFromSlot(a, 99);
    assert ShowFrom(b, 100).0 == [];
    assert ShowFrom(h, 98).0 == [h[98], h[99]];
    var c := AddFromSlot(h, 97);
    assert c[98] == h[99] && c[99] == h[98];
    var d := AddFromSlot(c, 98);
    assert d[99] == h[98];
    var e := AddFromSlot(d, 99);
    assert ShowFrom(e, 100).0 == [];
    assert ShowFrom(h, 97).0 == [h[97], h[99], h[98]];
  }

  /** The intended display: the last count messages (all of them when count is
      larger), oldest first, with the history left as it was. */
  function ShownHistory(h: seq<Message>, count: int): (r: seq<Message>)
    ensures count >= 0 ==> r == LastN(h, count)
    ensures count < 0 ==> r == []
  {
    var start := ShowStart(|h|, count);
    if start >= |h| then [] else h[start..]
  }

  // ---------------------------------------------------------------------
  // The UI state

  class UiState {
    var running: bool
    const history: array<Message>
    var historySize: int

    /** The history array has its 100 slots and the size counts the used ones. */
    predicate Valid()
      reads this
    {
      history.Length == UI_MAX_HISTORY && 0 <= historySize <= UI_MAX_HISTORY
    }

    /** The stored messages, oldest first. */
    function Entries(): (r: seq<Message>)
      reads this, history
      requires Valid()
      ensures |r| == historySize
    {
      history[..historySize]
    }

    /** ui_create: running, with an empty history. */
    constructor ()
      ensures Valid() && running && historySize == 0 && fresh(history)
    {
      running := true;
      history := new Message[UI_MAX_HISTORY](_ => ZeroMessage);
      historySize := 0;
    }

    /** ui_add_to_history. */
    method AddToHistory(m: Message)
      requires Valid()
      modifies this, history
      ensures Valid() && running == old(running)
      ensures Entries() == AddEntry(old(Entries()), m)
    {
      if historySize < UI_MAX_HISTORY {
        history[historySize] := m;
        historySize := historySize + 1;
      } else {
        ShiftDown();
        history[UI_MAX_HISTORY - 1] := m;
      }
    }

    /** The memmove of ui_add_to_history: every slot takes the next one's message. */
    method ShiftDown()
      requires Valid()
      modifies history
      ensures history[..UI_MAX_HISTORY - 1] == old(history[1..])
      ensures history[UI_MAX_HISTORY - 1] == old(history[UI_MAX_HISTORY - 1])
    {
      var k := 0;
      while k < UI_MAX_HISTORY - 1
        invariant 0 <= k <= UI_MAX_HISTORY - 1
        invariant forall j :: 0 <= j < k ==> history[j] == old(history[j + 1])
        invariant forall j :: k <= j < UI_MAX_HISTORY ==> history[j] == old(history[j])
      {
        history[k] := history[k + 1];
        k := k + 1;
      }
    }

    /** ui_show_history with the display fixed to what it announces: the last
        count messages, oldest first, without touching the history. */
    method ShowHistory(count: int) returns (shown: seq<Message>)
      requires Valid()
      ensures shown == ShownHistory(Entries(), count)
    {
      shown := [];
      if historySize == 0 {
        return;
      }
      var c := if count > historySize then historySize else count;
      var i := historySize - c;
      if i >= historySize {
        return;
      }
      ghost var start := i;
      while i < historySize
        invariant start <= i <= historySize
        invariant shown == history[start..i]
      {
        shown := shown + [history[i]];
        i := i + 1;
      }
    }

    /** The CMD_EXIT branch of ui_execute_command: stops the loop. */
    method ExecuteExit()
      modifies this
      ensures !running && historySize == old(historySize)
    {
      running := false;
    }

    /** ui_should_exit. */
    predicate ShouldExit()
      reads this
    {
      !running
    }
  }

  /** Once the exit command ran, the UI reports that it should exit. */
  lemma ExitThenShouldExit(ui: UiState)
    requires !ui.running
    ensures ui.ShouldExit()
  {
  }
}
