/** The protocol helpers shared by client and server: validators, the status
    names, bounded copies into caller buffers, the command-line tokenizer, the
    message id generator and the user-list encoding. */
module Utils {
  import opened CString
  import opened Protocol

  // ---------------------------------------------------------------------
  // Validators

  /** A character allowed in a login: an ASCII letter or digit, '_' or '-'. */
  predicate LoginChar(c: char) { IsAlnum(c) || c == '_' || c == '-' }

  /** A login of 1 to 31 characters, each of them allowed. */
  predicate IsValidLogin(login: string) {
    0 < |login| < MAX_LOGIN_LENGTH && forall i :: 0 <= i < |login| ==> LoginChar(login[i])
  }

  /** The validation loop over the characters of a login. */
  method ValidateLogin(login: string) returns (ok: bool)
    ensures ok <==> 0 < |login| < MAX_LOGIN_LENGTH && forall i :: 0 <= i < |login| ==> LoginChar(login[i])
    ensures ok == IsValidLogin(login)
  {
    if |login| == 0 || |login| >= MAX_LOGIN_LENGTH {
      return false;
    }
    var i := 0;
    while i < |login|
      invariant 0 <= i <= |login|
      invariant forall k :: 0 <= k < i ==> LoginChar(login[k])
    {
      if !LoginChar(login[i]) {
        return false;
      }
      i := i + 1;
    }
    return true;
  }

  /** The message types whose sender must be a valid login. */
  predicate NeedsSender(t: int) {
    t == MSG_TYPE_TEXT_MESSAGE || t == MSG_TYPE_BROADCAST || t == MSG_TYPE_CHAT_MESSAGE
  }

  /** A message of a known type whose text fits, with a valid sender where the type needs one. */
  function IsValidMessage(m: Message): (ok: bool)
    ensures ok ==> MSG_TYPE_REGISTER <= m.msgType <= MSG_TYPE_CHAT_MESSAGE
    ensures ok ==> |m.text| < MAX_MESSAGE_LENGTH
    ensures ok && NeedsSender(m.msgType) ==> IsValidLogin(m.sender)
    ensures !ok ==> m.msgType < MSG_TYPE_REGISTER || m.msgType > MSG_TYPE_CHAT_MESSAGE
                    || |m.text| >= MAX_MESSAGE_LENGTH || (NeedsSender(m.msgType) && !IsValidLogin(m.sender))
  {
    if m.msgType < MSG_TYPE_REGISTER || m.msgType > MSG_TYPE_CHAT_MESSAGE then false
    else if |m.text| >= MAX_MESSAGE_LENGTH then false
    else if NeedsSender(m.msgType) && !IsValidLogin(m.sender) then false
    else true
  }

  // ---------------------------------------------------------------------
  // Status names

  function StatusToString(status: int): (r: string)
    ensures IsStatus(status) ==> r != "unknown"
    ensures !IsStatus(status) ==> r == "unknown"
  {
    if status == USER_STATUS_OFFLINE then "offline"
    else if status == USER_STATUS_ONLINE then "online"
    else if status == USER_STATUS_AWAY then "away"
    else if status == USER_STATUS_BUSY then "busy"
    else if status == USER_STATUS_INVISIBLE then "invisible"
    else "unknown"
  }

  /** The status named by the first 31 characters of s, compared without
      regard to case; every other string names OFFLINE. */
  function StringToStatus(s: string): (r: int)
    ensures IsStatus(r)
    ensures r != USER_STATUS_OFFLINE ==> LowerAll(Take(s, 31)) == StatusToString(r)
    ensures r == USER_STATUS_OFFLINE <==>
              LowerAll(Take(s, 31)) !in ["online", "away", "busy", "invisible"]
  {
    var lower := LowerAll(Take(s, 31));
    if lower == "online" then USER_STATUS_ONLINE
    else if lower == "away" then USER_STATUS_AWAY
    else if lower == "busy" then USER_STATUS_BUSY
    else if lower == "invisible" then USER_STATUS_INVISIBLE
    else USER_STATUS_OFFLINE
  }

  /** Naming a status and reading the name back gives the status. */
  lemma StatusNameRoundTrip(status: int)
    requires IsStatus(status)
    ensures StringToStatus(StatusToString(status)) == status
  {
    var name := StatusToString(status);
    TakeOfShort(name, 31);
    LowerAllOfLower(name);
    if status == USER_STATUS_OFFLINE {
      assert name[1] != "online"[1];
      assert |name| != |"away"| && |name| != |"busy"| && |name| != |"invisible"|;
    }
  }

  lemma LowerAllOfLower(s: string)
    requires forall i :: 0 <= i < |s| ==> !IsUpper(s[i])
    ensures LowerAll(s) == s
  {
  }

  lemma LowerAllIdempotent(s: string)
    ensures LowerAll(LowerAll(s)) == LowerAll(s)
  {
  }

  lemma LowerAllTake(s: string, n: int)
    ensures LowerAll(Take(s, n)) == Take(LowerAll(s), n)
  {
  }

  /** Status names are matched without regard to case. */
  lemma StringToStatusIgnoresCase(s: string)
    ensures StringToStatus(LowerAll(s)) == StringToStatus(s)
  {
    LowerAllTake(s, 31);
    LowerAllTake(LowerAll(s), 31);
    LowerAllIdempotent(s);
    LowerAllIdempotent(Take(s, 31));
    assert LowerAll(Take(LowerAll(s), 31)) == LowerAll(Take(s, 31));
  }

  /** Characters after the 31st never change the status a string names. */
  lemma StringToStatusFirst31(s: string)
    ensures StringToStatus(Take(s, 31)) == StringToStatus(s)
  {
    TakeTake(s, 31, 31);
  }

  // ---------------------------------------------------------------------
  // Case-insensitive comparison

  /** The lower-cased first character of s, 0 for the terminator. */
  function LowerHead(s: string): int {
    if s == [] then 0 else ToLower(s[0]) as int
  }

  /** my_strcasecmp: the difference of the lower-cased characters at the first
      position where they differ, or where either string ends. */
  function StrCaseCmp(a: string, b: string): (r: int)
    ensures r == 0 && a != [] && b != [] ==> ToLower(a[0]) == ToLower(b[0])
  {
    if a == [] || b == [] then LowerHead(a) - LowerHead(b)
    else if ToLower(a[0]) != ToLower(b[0]) then ToLower(a[0]) as int - ToLower(b[0]) as int
    else StrCaseCmp(a[1..], b[1..])
  }

  /** Two C strings compare equal exactly when their lower-case forms agree. */
  lemma {:induction false} StrCaseCmpZero(a: string, b: string)
    requires NUL !in a && NUL !in b
    ensures StrCaseCmp(a, b) == 0 <==> LowerAll(a) == LowerAll(b)
  {
    if a == [] || b == [] {
      if a != [] {
        assert ToLower(a[0]) != NUL;
        assert |LowerAll(a)| != |LowerAll(b)|;
      }
      if b != [] {
        assert ToLower(b[0]) != NUL;
        assert |LowerAll(a)| != |LowerAll(b)|;
      }
    } else if ToLower(a[0]) != ToLower(b[0]) {
      assert LowerAll(a)[0] != LowerAll(b)[0];
    } else {
      StrCaseCmpZero(a[1..], b[1..]);
      assert LowerAll(a) == [ToLower(a[0])] + LowerAll(a[1..]);
      assert LowerAll(b) == [ToLower(b[0])] + LowerAll(b[1..]);
    }
  }

  /** Swapping the arguments negates the comparison. */
  lemma {:induction false} StrCaseCmpAntisymmetric(a: string, b: string)
    ensures StrCaseCmp(b, a) == -StrCaseCmp(a, b)
  {
    if a != [] && b != [] && ToLower(a[0]) == ToLower(b[0]) {
      StrCaseCmpAntisymmetric(a[1..], b[1..]);
    }
  }

  // ---------------------------------------------------------------------
  // Bounded copies into caller buffers

  /** Copies the C string at the start of src into dest[offset..], keeping at
      most size - 1 characters and always writing a terminator. */
  method CopyBounded(dest: array<char>, offset: nat, src: seq<char>, size: nat)
    requires 0 < size && offset + size <= dest.Length
    modifies dest
    ensures var t := Take(CStr(src), size - 1);
      && dest[..offset] == old(dest[..offset])
      && dest[offset..offset + |t|] == t
      && dest[offset + |t|] == NUL
      && dest[offset + |t| + 1..] == old(dest[offset + |t| + 1..])
  {
    ghost var before := dest[..];
    var i := CopyChars(dest, offset, src, size, before);
    dest[offset + i] := NUL;
    ghost var after := dest[..];
    ghost var t := src[..i];
    assert forall k :: 0 <= k < |after| ==>
      after[k] == if offset <= k < offset + |t| then t[k - offset] else if k == offset + |t| then NUL else before[k];
    CopiedSlices(before, after, offset, t);
  }

  /** The copying loop of CopyBounded: the characters of src before its
      first NUL, at most size - 1 of them, go to dest[offset..]. */
  method CopyChars(dest: array<char>, offset: nat, src: seq<char>, size: nat, ghost before: seq<char>)
    returns (i: nat)
    requires 0 < size && offset + size <= dest.Length && before == dest[..]
    modifies dest
    ensures i < size && i <= |src| && src[..i] == Take(CStr(src), size - 1)
    ensures forall k :: 0 <= k < dest.Length ==>
      dest[k] == if offset <= k < offset + i then src[k - offset] else before[k]
  {
    i := 0;
    while i < size - 1 && i < |src| && src[i] != NUL
      invariant 0 <= i <= size - 1 && i <= |src|
      invariant NUL !in src[..i]
      invariant forall k :: 0 <= k < dest.Length ==>
        dest[k] == if offset <= k < offset + i then src[k - offset] else before[k]
    {
      dest[offset + i] := src[i];
      assert src[..i + 1] == src[..i] + [src[i]];
      i := i + 1;
    }
    CStrOfPrefix(src, i);
  }

  /** A buffer that differs from before exactly by t and a terminator at
      offset: its slices around the copy are unchanged. */
  lemma CopiedSlices(before: seq<char>, after: seq<char>, offset: nat, t: seq<char>)
    requires |before| == |after| && offset + |t| < |after|
    requires forall k :: 0 <= k < |after| ==>
      after[k] == if offset <= k < offset + |t| then t[k - offset] else if k == offset + |t| then NUL else before[k]
    ensures after[..offset] == before[..offset]
    ensures after[offset..offset + |t|] == t && after[offset + |t|] == NUL
    ensures after[offset + |t| + 1..] == before[offset + |t| + 1..]
  {
  }

  lemma {:induction false} CStrOfPrefix(src: seq<char>, i: nat)
    requires i <= |src| && NUL !in src[..i]
    ensures src[..i] <= CStr(src)
    ensures i < |src| && src[i] == NUL ==> CStr(src) == src[..i]
    ensures i == |src| ==> CStr(src) == src
  {
    if i > 0 {
      assert src[1..][..i - 1] == src[1..i];
      CStrOfPrefix(src[1..], i - 1);
    }
  }

  /** safe_strcpy: copies at most destSize - 1 characters of src and a
      terminator; a null source gives the empty string, a zero size writes nothing. */
  method SafeStrcpy(dest: array<char>, src: Option<seq<char>>, destSize: nat)
    requires destSize <= dest.Length
    modifies dest
    ensures destSize == 0 ==> dest[..] == old(dest[..])
    ensures destSize > 0 ==>
      var t := if src.Some? then Take(CStr(src.value), destSize - 1) else [];
      && dest[..|t|] == t
      && dest[|t|] == NUL
      && dest[|t| + 1..] == old(dest[|t| + 1..])
    ensures destSize > 0 && src.Some? ==> CStr(dest[..]) == Take(CStr(src.value), destSize - 1)
    ensures destSize > 0 && src.None? ==> CStr(dest[..]) == []
  {
    if destSize == 0 {
      return;
    }
    if src.None? {
      dest[0] := NUL;
      return;
    }
    CopyBounded(dest, 0, src.value, destSize);
    ghost var t := Take(CStr(src.value), destSize - 1);
    assert dest[..|t|] == t;
    CStrOfPrefix(dest[..], |t|);
  }

  /** safe_strcat: appends src after the string in dest when that string ends
      inside the first destSize characters, keeping the result within destSize. */
  method SafeStrcat(dest: array<char>, src: seq<char>, destSize: nat)
    requires destSize <= dest.Length
    requires NUL in dest[..]
    modifies dest
    ensures |CStr(old(dest[..]))| >= destSize ==> dest[..] == old(dest[..])
    ensures var s := CStr(old(dest[..]));
      |s| < destSize ==>
        var t := Take(CStr(src), destSize - |s| - 1);
        && dest[..|s|] == s
        && dest[|s|..|s| + |t|] == t
        && dest[|s| + |t|] == NUL
        && dest[|s| + |t| + 1..] == old(dest[|s| + |t| + 1..])
    ensures var s := CStr(old(dest[..]));
      |s| < destSize ==> CStr(dest[..]) == s + Take(CStr(src), destSize - |s| - 1)
  {
    var len := |CStr(dest[..])|;
    if len >= destSize {
      return;
    }
    AppendAt(dest, len, src, destSize);
  }

  /** The copy step of safe_strcat, once the string s in dest is known to
      end at len, inside the first destSize characters. */
  method AppendAt(dest: array<char>, len: nat, src: seq<char>, destSize: nat)
    requires len < destSize <= dest.Length && len == |CStr(dest[..])|
    modifies dest
    ensures var s := CStr(old(dest[..]));
      var t := Take(CStr(src), destSize - |s| - 1);
      && dest[..|s|] == s
      && dest[|s|..|s| + |t|] == t
      && dest[|s| + |t|] == NUL
      && dest[|s| + |t| + 1..] == old(dest[|s| + |t| + 1..])
      && CStr(dest[..]) == s + t
  {
    ghost var before := dest[..];
    ghost var s := CStr(before);
    assert before[..len] == s;
    ghost var t := Take(CStr(src), destSize - len - 1);
    CopyBounded(dest, len, src, destSize - len);
    ghost var after := dest[..];
    assert after[..len] == before[..len];
    assert after[len..len + |t|] == t && after[len + |t|] == NUL;
    AppendedString(after, s, t);
  }

  /** A buffer holding s, then t, then a terminator holds the C string s + t. */
  lemma AppendedString(buf: seq<char>, s: string, t: string)
    requires |s| + |t| < |buf| && NUL !in s && NUL !in t
    requires buf[..|s|] == s && buf[|s|..|s| + |t|] == t && buf[|s| + |t|] == NUL
    ensures CStr(buf) == s + t
  {
    assert buf[..|s| + |t|] == s + t by {
      assert buf[..|s| + |t|] == buf[..|s|] + buf[|s|..|s| + |t|];
    }
    CStrOfPrefix(buf, |s| + |t|);
  }

  /** The string with its trailing '\n' and '\r' characters removed. */
  function TrimEnd(s: string): (r: string)
    ensures r <= s
  {
    if s != [] && (s[|s| - 1] == '\n' || s[|s| - 1] == '\r') then TrimEnd(s[..|s| - 1]) else s
  }

  predicate IsNewline(c: char) { c == '\n' || c == '\r' }

  /** Trimming removes only line ends, and all of those at the end. */
  lemma {:induction false} TrimEndRemovesLineEnds(s: string)
    ensures var r := TrimEnd(s);
      && (forall k :: |r| <= k < |s| ==> IsNewline(s[k]))
      && (r == [] || !IsNewline(r[|r| - 1]))
  {
    if s != [] && IsNewline(s[|s| - 1]) {
      TrimEndRemovesLineEnds(s[..|s| - 1]);
    }
  }

  /** Trimming twice trims nothing more. */
  lemma TrimEndIdempotent(s: string)
    ensures TrimEnd(TrimEnd(s)) == TrimEnd(s)
  {
    TrimEndRemovesLineEnds(s);
  }

  /** trim_newline: overwrites the trailing line ends of the C string in str with NULs. */
  method TrimNewline(str: array<char>)
    requires NUL in str[..]
    modifies str
    ensures var s := CStr(old(str[..])); var t := TrimEnd(s);
      && str[..|t|] == t
      && (forall k :: |t| <= k < |s| ==> str[k] == NUL)
      && str[|s|..] == old(str[|s|..])
    ensures CStr(str[..]) == TrimEnd(CStr(old(str[..])))
  {
    ghost var orig := str[..];
    var len := |CStr(str[..])|;
    ghost var s := CStr(orig);
    assert s == orig[..len];
    assert len < |orig| && orig[len] == NUL;
    len := StripLineEnds(str, len, s);
    assert |TrimEnd(s)| == len;
    assert str[len] == NUL by {
      if len == |s| {
        assert str[|s|..][0] == orig[|s|..][0];
      }
    }
    CStrOfPrefix(str[..], len);
  }

  /** The loop of trim_newline: NULs over the line ends that close w, the
      first n characters of str. */
  method StripLineEnds(str: array<char>, n: nat, ghost w: string) returns (len: nat)
    requires n < str.Length && str[..n] == w
    modifies str
    ensures len <= n && w[..len] == TrimEnd(w)
    ensures str[..len] == w[..len]
    ensures forall k :: len <= k < n ==> str[k] == NUL
    ensures str[n..] == old(str[n..])
  {
    len := n;
    while len > 0 && (str[len - 1] == '\n' || str[len - 1] == '\r')
      invariant len <= n
      invariant str[..len] == w[..len]
      invariant forall k :: len <= k < n ==> str[k] == NUL
      invariant str[n..] == old(str[n..])
      invariant TrimEnd(w[..len]) == TrimEnd(w)
    {
      assert str[len - 1] == w[len - 1];
      assert w[..len][..len - 1] == w[..len - 1];
      str[len - 1] := NUL;
      len := len - 1;
    }
  }

  // ---------------------------------------------------------------------
  // The command-line tokenizer

  /** The first index at or after i that does not hold white space. */
  function SkipWs(s: string, i: nat): (j: nat)
    requires i <= |s|
    ensures i <= j <= |s|
    ensures forall k :: i <= k < j ==> IsSpace(s[k])
    ensures j == |s| || !IsSpace(s[j])
    decreases |s| - i
  {
    if i < |s| && IsSpace(s[i]) then SkipWs(s, i + 1) else i
  }

  /** The first index at or after i that holds white space, or |s|. */
  function WordEnd(s: string, i: nat): (j: nat)
    requires i <= |s|
    ensures i <= j <= |s|
    ensures forall k :: i <= k < j ==> !IsSpace(s[k])
    ensures j == |s| || IsSpace(s[j])
    decreases |s| - i
  {
    if i < |s| && !IsSpace(s[i]) then WordEnd(s, i + 1) else i
  }

  /** The first index at or after i that holds c, or |s| when there is none. */
  function FindFrom(s: string, c: char, i: nat): (j: nat)
    requires i <= |s|
    ensures i <= j <= |s|
    ensures forall k :: i <= k < j ==> s[k] != c
    ensures j == |s| || s[j] == c
    decreases |s| - i
  {
    if i < |s| && s[i] != c then FindFrom(s, c, i + 1) else i
  }

  /** The result of parse_user_input: its return code and the three buffers. */
  datatype ParsedInput = ParsedInput(code: int, command: string, arg1: string, arg2: string)

  /** What parse_user_input fills in: 0 for a blank line; 1 for "/command arg1
      rest"; 2 for a single recipient; 3 for "recipient text". */
  function ParseInput(s: string): ParsedInput {
    var i := SkipWs(s, 0);
    if i == |s| then ParsedInput(0, "", "", "")
    else if s[i] == '/' then SlashInput(s, i)
    else PlainInput(s, i)
  }

  /** A line whose first non-blank character, at i, is '/'. */
  function SlashInput(s: string, i: nat): ParsedInput
    requires i < |s|
  {
    var e := WordEnd(s, i + 1);
    var j := SkipWs(s, e);
    var e2 := WordEnd(s, j);
    var k := SkipWs(s, e2);
    ParsedInput(1, Take(s[i + 1..e], MAX_LOGIN_LENGTH - 1), Take(s[j..e2], MAX_LOGIN_LENGTH - 1),
                Take(s[k..], MAX_MESSAGE_LENGTH - 1))
  }

  /** A line whose first non-blank character, at i, is not '/'. */
  function PlainInput(s: string, i: nat): ParsedInput
    requires i < |s|
  {
    var sp := FindFrom(s, ' ', i);
    if sp == |s| then ParsedInput(2, Take(s[i..], MAX_LOGIN_LENGTH - 1), "", "")
    else ParsedInput(3, Take(s[i..sp], MAX_LOGIN_LENGTH - 1),
                     Take(s[SkipWs(s, sp + 1)..], MAX_MESSAGE_LENGTH - 1), "")
  }

  /** Advances over white space from i. */
  method SkipSpacesAt(s: string, i: nat) returns (j: nat)
    requires i <= |s|
    ensures j == SkipWs(s, i)
  {
    j := i;
    while j < |s| && IsSpace(s[j])
      invariant i <= j <= |s|
      invariant SkipWs(s, j) == SkipWs(s, i)
    {
      j := j + 1;
    }
  }

  /** Advances over a word from i, up to the next white space. */
  method ScanWord(s: string, i: nat) returns (j: nat)
    requires i <= |s|
    ensures j == WordEnd(s, i)
  {
    j := i;
    while j < |s| && !IsSpace(s[j])
      invariant i <= j <= |s|
      invariant WordEnd(s, j) == WordEnd(s, i)
    {
      j := j + 1;
    }
  }

  /** strchr from i: the index of the next c, or |s|. */
  method ScanFor(s: string, c: char, i: nat) returns (j: nat)
    requires i <= |s|
    ensures j == FindFrom(s, c, i)
  {
    j := i;
    while j < |s| && s[j] != c
      invariant i <= j <= |s|
      invariant FindFrom(s, c, j) == FindFrom(s, c, i)
    {
      j := j + 1;
    }
  }

  /** parse_user_input with all three output buffers supplied. */
  method ParseUserInput(input: string) returns (code: int, command: string, arg1: string, arg2: string)
    ensures ParsedInput(code, command, arg1, arg2) == ParseInput(input)
  {
    var i := SkipSpacesAt(input, 0);
    if i == |input| {
      return 0, "", "", "";
    }
    var p;
    if input[i] == '/' {
      p := ParseSlashLine(input, i);
    } else {
      p := ParsePlainLine(input, i);
    }
    code, command, arg1, arg2 := p.code, p.command, p.arg1, p.arg2;
  }

  /** The slash-command branch of parse_user_input. */
  method ParseSlashLine(input: string, start: nat) returns (p: ParsedInput)
    requires start < |input|
    ensures p == SlashInput(input, start)
  {
    var command, arg1, arg2 := "", "", "";
    var end := ScanWord(input, start + 1);
    command := Take(input[start + 1..end], MAX_LOGIN_LENGTH - 1);
    var i := SkipSpacesAt(input, end);
    if i < |input| {
      end := ScanWord(input, i);
      arg1 := Take(input[i..end], MAX_LOGIN_LENGTH - 1);
      i := end;
    }
    i := SkipSpacesAt(input, i);
    if i < |input| {
      arg2 := Take(input[i..], MAX_MESSAGE_LENGTH - 1);
    }
    return ParsedInput(1, command, arg1, arg2);
  }

  /** The recipient-and-text branch of parse_user_input. */
  method ParsePlainLine(input: string, start: nat) returns (p: ParsedInput)
    requires start < |input|
    ensures p == PlainInput(input, start)
  {
    var space := ScanFor(input, ' ', start);
    if space == |input| {
      return ParsedInput(2, Take(input[start..], MAX_LOGIN_LENGTH - 1), "", "");
    }
    var i := SkipSpacesAt(input, space + 1);
    return ParsedInput(3, Take(input[start..space], MAX_LOGIN_LENGTH - 1),
                       Take(input[i..], MAX_MESSAGE_LENGTH - 1), "");
  }

  /** A blank line, and only a blank line, parses to code 0. */
  lemma ParseBlank(s: string)
    ensures ParseInput(s).code == 0 <==> forall k :: 0 <= k < |s| ==> IsSpace(s[k])
  {
  }

  /** Every field fits its buffer: the command and a slash command's first
      argument fit a login, the rest fits a message. */
  lemma ParseFieldsFit(s: string)
    ensures var p := ParseInput(s);
      && 0 <= p.code <= 3
      && |p.command| < MAX_LOGIN_LENGTH
      && |p.arg1| < MAX_MESSAGE_LENGTH && |p.arg2| < MAX_MESSAGE_LENGTH
      && (p.code == 1 ==> |p.arg1| < MAX_LOGIN_LENGTH)
      && (p.code != 1 ==> p.arg2 == [])
  {
  }

  /** A slash command and its first argument are single words. */
  lemma ParseSlashWords(s: string)
    requires ParseInput(s).code == 1
    ensures var p := ParseInput(s);
      && (forall k :: 0 <= k < |p.command| ==> !IsSpace(p.command[k]))
      && (forall k :: 0 <= k < |p.arg1| ==> !IsSpace(p.arg1[k]))
      && (p.arg2 == [] || !IsSpace(p.arg2[0]))
  {
    SlashInputWords(s, SkipWs(s, 0));
  }

  lemma SlashInputWords(s: string, i: nat)
    requires i < |s|
    ensures var p := SlashInput(s, i);
      && (forall k :: 0 <= k < |p.command| ==> !IsSpace(p.command[k]))
      && (forall k :: 0 <= k < |p.arg1| ==> !IsSpace(p.arg1[k]))
      && (p.arg2 == [] || !IsSpace(p.arg2[0]))
  {
    var p := SlashInput(s, i);
    var e := WordEnd(s, i + 1);
    var j := SkipWs(s, e);
    var e2 := WordEnd(s, j);
    var k := SkipWs(s, e2);
    assert p.command <= s[i + 1..e];
    assert p.arg1 <= s[j..e2];
    assert p.arg2 <= s[k..];
  }

  /** A recipient never holds a blank, and the text after it never starts with white space. */
  lemma ParseRecipientWords(s: string)
    requires ParseInput(s).code >= 2
    ensures var p := ParseInput(s);
      && ' ' !in p.command
      && (p.arg1 == [] || !IsSpace(p.arg1[0]))
  {
    PlainInputWords(s, SkipWs(s, 0));
  }

  lemma PlainInputWords(s: string, i: nat)
    requires i < |s|
    ensures var p := PlainInput(s, i);
      && ' ' !in p.command
      && (p.arg1 == [] || !IsSpace(p.arg1[0]))
  {
    var p := PlainInput(s, i);
    var sp := FindFrom(s, ' ', i);
    if sp == |s| {
      assert p.command <= s[i..];
    } else {
      assert p.command <= s[i..sp];
      var k := SkipWs(s, sp + 1);
      assert p.arg1 <= s[k..];
    }
  }

  /** A word with no white space that fits a login. */
  predicate ShortWord(w: string) {
    0 < |w| < MAX_LOGIN_LENGTH && forall k :: 0 <= k < |w| ==> !IsSpace(w[k])
  }

  /** Text that fits a message and does not start with white space. */
  predicate ShortText(t: string) {
    |t| < MAX_MESSAGE_LENGTH && (t == [] || !IsSpace(t[0]))
  }

  /** "recipient text" splits back into the recipient and the text. */
  lemma ParseRecipientText(w: string, t: string)
    requires ShortWord(w) && w[0] != '/'
    requires ShortText(t)
    ensures ParseInput(w + " " + t) == ParsedInput(3, w, t, "")
  {
    var s := w + " " + t;
    assert !IsSpace(s[0]);
    assert SkipWs(s, 0) == 0;
    FindWordEnd(s, 0, |w|);
    assert s[0..|w|] == w;
    assert s[|w| + 1..] == t;
    assert SkipWs(s, |w| + 1) == |w| + 1;
  }

  lemma FindWordEnd(s: string, i: nat, j: nat)
    requires i <= j < |s| && s[j] == ' '
    requires forall k :: i <= k < j ==> !IsSpace(s[k])
    ensures FindFrom(s, ' ', i) == j
    ensures WordEnd(s, i) == j
    decreases j - i
  {
    if i < j {
      FindWordEnd(s, i + 1, j);
    }
  }

  /** "/command word rest" splits back into its three parts. */
  lemma ParseSlashCommand(c: string, a: string, r: string)
    requires ShortWord(c) && ShortWord(a) && ShortText(r)
    ensures ParseInput("/" + c + " " + a + " " + r) == ParsedInput(1, c, a, r)
  {
    var s := "/" + c + " " + a + " " + r;
    assert s[0] == '/' && SkipWs(s, 0) == 0;
    SlashInputParts(c, a, r);
  }

  /** The slash branch on "/command word rest" finds its three parts. */
  lemma SlashInputParts(c: string, a: string, r: string)
    requires ShortWord(c) && ShortWord(a) && ShortText(r)
    ensures SlashInput("/" + c + " " + a + " " + r, 0) == ParsedInput(1, c, a, r)
  {
    var s := "/" + c + " " + a + " " + r;
    var e := |c| + 1;
    var j := e + 1;
    var e2 := j + |a|;
    SlashCommandLayout(c, a, r);
    FindWordEnd(s, 1, e);
    FindWordEnd(s, j, e2);
    assert SkipWs(s, j) == j;
    assert SkipWs(s, e) == j;
    assert SkipWs(s, e2 + 1) == e2 + 1;
    assert SkipWs(s, e2) == e2 + 1;
    TakeOfShort(c, MAX_LOGIN_LENGTH - 1);
    TakeOfShort(a, MAX_LOGIN_LENGTH - 1);
    TakeOfShort(r, MAX_MESSAGE_LENGTH - 1);
  }

  /** Where the parts of "/command word rest" sit. */
  lemma SlashCommandLayout(c: string, a: string, r: string)
    requires ShortWord(c) && ShortWord(a) && ShortText(r)
    ensures var s := "/" + c + " " + a + " " + r;
      var e := |c| + 1; var e2 := e + 1 + |a|;
      && |s| == e2 + 1 + |r|
      && s[0] == '/' && s[e] == ' ' && s[e2] == ' '
      && s[1..e] == c && s[e + 1..e2] == a && s[e2 + 1..] == r
      && (forall k :: 1 <= k < e ==> !IsSpace(s[k]))
      && (forall k :: e + 1 <= k < e2 ==> !IsSpace(s[k]))
      && (e2 + 1 == |s| || !IsSpace(s[e2 + 1]))
  {
    var s := "/" + c + " " + a + " " + r;
    var e := |c| + 1;
    var e2 := e + 1 + |a|;
    assert s[1..e] == c;
    assert s[e + 1..e2] == a;
    assert s[e2 + 1..] == r;
    forall k | 1 <= k < e ensures !IsSpace(s[k]) {
      assert s[k] == c[k - 1];
    }
    forall k | e + 1 <= k < e2 ensures !IsSpace(s[k]) {
      assert s[k] == a[k - e - 1];
    }
  }

  // ---------------------------------------------------------------------
  // Message ids

  /** The id for a timestamp and a counter value: the timestamp shifted into
      the high 16 bits of a 32-bit word, the counter's low 16 bits below it. */
  function MessageId(now: nat, counter: nat): (id: nat)
    ensures id < UINT32
  {
    (now % 0x1_0000) * 0x1_0000 + counter % 0x1_0000
  }

  /** Two ids of the same second coincide exactly when their counters agree
      modulo 2^16. */
  lemma MessageIdInjective(now: nat, c1: nat, c2: nat)
    ensures MessageId(now, c1) == MessageId(now, c2) <==> c1 % 0x1_0000 == c2 % 0x1_0000
  {
  }

  /** Ids of different seconds (modulo 2^16) never coincide. */
  lemma MessageIdSeparatesSeconds(t1: nat, t2: nat, c1: nat, c2: nat)
    requires t1 % 0x1_0000 != t2 % 0x1_0000
    ensures MessageId(t1, c1) != MessageId(t2, c2)
  {
    var q1, q2 := t1 % 0x1_0000, t2 % 0x1_0000;
    var r1, r2 := c1 % 0x1_0000, c2 % 0x1_0000;
    assert MessageId(t1, c1) / 0x1_0000 == q1;
    assert MessageId(t2, c2) / 0x1_0000 == q2;
  }

  /** Any 2^16 consecutive counter values give pairwise different ids within a second. */
  lemma MessageIdsDistinctBeforeWrap(now: nat, base: nat, i: nat, j: nat)
    requires i < j < i + 0x1_0000
    ensures MessageId(now, base + i) != MessageId(now, base + j)
  {
    MessageIdInjective(now, base + i, base + j);
  }

  /** generate_message_id with its static counter. */
  class IdGenerator {
    var counter: nat

    predicate Valid()
      reads this
    {
      counter < UINT32
    }

    constructor ()
      ensures Valid() && counter == 0
    {
      counter := 0;
    }

    /** Advances the 32-bit counter and builds the id from it and the time. */
    method Next(now: nat) returns (id: nat)
      requires Valid()
      modifies this
      ensures Valid()
      ensures counter == (old(counter) + 1) % UINT32
      ensures id == MessageId(now, counter)
      ensures id % 0x1_0000 == (old(counter) + 1) % 0x1_0000
    {
      counter := (counter + 1) % UINT32;
      id := ((now * 0x1_0000) % UINT32) + counter % 0x1_0000;
      assert (now * 0x1_0000) % UINT32 == (now % 0x1_0000) * 0x1_0000;
    }
  }

  // ---------------------------------------------------------------------
  // The user list on the wire

  /** A directory entry as sent to clients (44 bytes packed). */
  datatype UserInfo = UserInfo(login: string, status: int, lastActivity: nat, connectionId: nat)

  /** A user list: the count and the fixed array of entries behind it. */
  datatype UserList = UserList(count: nat, users: seq<UserInfo>)

  /** A buffer holding a user list: an 8-byte count, then the records that follow it. */
  datatype UserListImage = UserListImage(count: nat, records: seq<UserInfo>)

  const USER_INFO_SIZE: nat := 44
  const COUNT_SIZE: nat := 8

  /** Bytes needed for a count and that many records. */
  function RequiredSize(count: nat): nat { COUNT_SIZE + count * USER_INFO_SIZE }

  /** serialize_userlist: the written image, or None (a return of 0) when the
      buffer cannot hold the count and the records. */
  function SerializeUserList(l: UserList, bufferSize: nat): (r: Option<UserListImage>)
    requires l.count <= |l.users|
    ensures r.Some? <==> bufferSize >= RequiredSize(l.count)
    ensures r.Some? ==> r.value.count == l.count && |r.value.records| == l.count
  {
    if bufferSize < RequiredSize(l.count) then None
    else Some(UserListImage(l.count, l.users[..l.count]))
  }

  /** desirialize_userlist: the return code and the list afterwards. The buffer
      is valid for bufferSize bytes and cannot hold more records than it has. */
  function DeserializeUserList(buf: UserListImage, bufferSize: nat, list: UserList): (r: (int, UserList))
    requires bufferSize <= RequiredSize(|buf.records|)
    requires |list.users| == MAX_USERS
    ensures r.0 == 0 || r.0 == -1
    ensures r.0 == 0 <==> bufferSize >= RequiredSize(buf.count) && buf.count <= MAX_USERS
    ensures r.0 == 0 ==> r.1.count == buf.count && |r.1.users| == MAX_USERS
                         && r.1.users[..buf.count] == buf.records[..buf.count]
                         && r.1.users[buf.count..] == list.users[buf.count..]
    ensures r.0 != 0 && bufferSize < COUNT_SIZE ==> r.1 == list
    ensures r.0 != 0 && bufferSize >= COUNT_SIZE ==> r.1 == list.(count := 0)
  {
    if bufferSize < COUNT_SIZE then (-1, list)
    else if buf.count > MAX_USERS then (-1, list.(count := 0))
    else if bufferSize < RequiredSize(buf.count) then (-1, list.(count := 0))
    else (0, list.(count := buf.count, users := buf.records[..buf.count] + list.users[buf.count..]))
  }

  /** Decoding what the encoder wrote gives back the count and the entries. */
  lemma UserListRoundTrip(l: UserList, bufferSize: nat, target: UserList)
    requires l.count <= |l.users| && l.count <= MAX_USERS
    requires bufferSize >= RequiredSize(l.count)
    requires |target.users| == MAX_USERS
    ensures var img := SerializeUserList(l, bufferSize);
      img.Some? &&
      var r := DeserializeUserList(img.value, RequiredSize(l.count), target);
      r.0 == 0 && r.1.count == l.count && r.1.users[..l.count] == l.users[..l.count]
  {
  }

  /** A count above MAX_USERS is refused whatever the buffer holds, and the list is emptied. */
  lemma UserListRejectsOversizedCount(buf: UserListImage, bufferSize: nat, list: UserList)
    requires bufferSize <= RequiredSize(|buf.records|) && |list.users| == MAX_USERS
    requires bufferSize >= COUNT_SIZE && buf.count > MAX_USERS
    ensures DeserializeUserList(buf, bufferSize, list) == (-1, list.(count := 0))
  {
  }
}
