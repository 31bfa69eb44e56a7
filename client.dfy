/**
  The console client: the validators of names and commands, the request
  frames it sends, the prompting that fills them and the loop that waits for
  a complete reply.  Console input is modelled by the lines std::getline
  would return from it (`Lines` of the typed text) and by whether that text
  ends in a newline (`terminated`); a prompt at the end of that input reads
  nothing.  Where the client would then loop for ever (a re-prompt after an
  unterminated last line, or the message body reading on at end of input),
  or block in recv, the model returns an outcome saying so instead.
 */
module MailClient {
  import opened CppText
  import opened MailStore

  /** The longest name the client accepts. */
  const MaxNameLength := 8

  /** The five commands the protocol has. */
  const CommandNames := ["SEND", "LIST", "READ", "DEL", "QUIT"]

  /** islower or isdigit in the C locale. */
  predicate IsNameChar(c: char)
  {
    'a' <= c <= 'z' || '0' <= c <= '9'
  }

  /** The loop over the characters of a name: every one is a lower-case letter or a digit. */
  function AllNameChars(name: string): (ok: bool)
    ensures ok <==> forall i :: 0 <= i < |name| ==> IsNameChar(name[i])
  {
    name == [] || (IsNameChar(name[0]) && AllNameChars(name[1..]))
  }

  /** isValidName: at most eight characters, each a lower-case letter or a digit; "" is accepted. */
  function IsValidName(name: string): (ok: bool)
    ensures ok <==> |name| <= MaxNameLength && forall i :: 0 <= i < |name| ==> IsNameChar(name[i])
  {
    if |name| > MaxNameLength then false else AllNameChars(name)
  }

  /** A valid name is one plain path component on one line: no '/', no white space, no backslash, not "." or "..". */
  lemma ValidNameIsPlain(name: string)
    requires IsValidName(name)
    ensures '/' !in name && '\\' !in name && '.' !in name
    ensures forall i :: 0 <= i < |name| ==> !IsSpace(name[i])
  {
  }

  /** isValidCommand: the line splits, at white space, into exactly one word, which names a command. */
  function IsValidCommand(command: string): (ok: bool)
    ensures ok <==> Strip(command) in CommandNames
  {
    SingleTokenIsStripped(command);
    assert Strip(command) in CommandNames ==> |Tokens(command)| == 1 by {
      if Strip(command) in CommandNames {
        CommandNamesAreWords(Strip(command));
      }
    }
    var parts := Tokens(command);
    if parts == [] then false
    else
      var commandName := parts[0];
      if |parts| != 1 then false
      else commandName in CommandNames
  }

  lemma CommandNamesAreWords(name: string)
    requires name in CommandNames
    ensures name != [] && forall i :: 0 <= i < |name| ==> !IsSpace(name[i])
  {
  }

  /** A word has no white space to strip. */
  lemma StripOfWord(w: string)
    requires w != [] && forall i :: 0 <= i < |w| ==> !IsSpace(w[i])
    ensures Strip(w) == w
  {
    assert DropLeadingSpace(w) == w;
    assert DropTrailingSpace(w) == w;
  }

  /** A command line is valid exactly when, stripped of white space at both ends, it is a command name. */
  lemma IsValidCommandIsStrippedName(command: string)
    ensures IsValidCommand(command) <==> Strip(command) in CommandNames
    ensures IsValidCommand(command) ==> Tokens(command) == [Strip(command)]
  {
    SingleTokenIsStripped(command);
  }

  /**
    The line fgets read, cut at its first carriage return or newline (the
    strcspn cut) or at an earlier NUL (the std::string built from the buffer).
   */
  function CommandLine(buffer: string): (command: string)
    ensures |command| <= |buffer| && command == buffer[..|command|]
    ensures '\r' !in command && '\n' !in command && '\0' !in command
    ensures |command| < |buffer| ==> buffer[|command|] == '\r' || buffer[|command|] == '\n' || buffer[|command|] == '\0'
  {
    if buffer == [] || buffer[0] == '\r' || buffer[0] == '\n' || buffer[0] == '\0' then []
    else
      var tail := CommandLine(buffer[1..]);
      assert buffer[..1 + |tail|] == [buffer[0]] + buffer[1..][..|tail|];
      [buffer[0]] + tail
  }

  // ---------------------------------------------------------------------------
  // Which command is sent

  /**
    The command the client goes on to send, as written: it compares the whole
    line with each command name, so a valid line with white space around the
    name matches none of them and nothing is sent.
   */
  function DispatchedName(command: string): Option<string>
  {
    if command in CommandNames then Some(command) else None
  }

  /** A padded line passes isValidCommand but no request is sent for it. */
  lemma PaddedCommandIsNotSent()
    ensures IsValidCommand("LIST ")
    ensures DispatchedName("LIST ") == None
  {
    assert Tokens("LIST ") == ["LIST"] by {
      IsValidCommandIsStrippedName("LIST ");
      assert DropLeadingSpace("LIST ") == "LIST ";
      assert DropTrailingSpace("LIST ") == "LIST" by {
        assert DropTrailingSpace("LIST "[..4]) == "LIST";
      }
      assert Strip("LIST ") == "LIST";
    }
  }

  /** The command sent for a line, keyed on its one word: every valid line sends its command. */
  function RequestedName(command: string): (r: Option<string>)
    ensures r.Some? <==> IsValidCommand(command)
    ensures r.Some? ==> r.value in CommandNames && r.value == Strip(command)
  {
    IsValidCommandIsStrippedName(command);
    if IsValidCommand(command) then Some(Tokens(command)[0]) else None
  }

  /** On a line that is exactly a command name the two agree. */
  lemma RequestedNameAgrees(command: string)
    requires command in CommandNames
    ensures RequestedName(command) == DispatchedName(command) == Some(command)
  {
    CommandNamesAreWords(command);
    assert Strip(command) == command by {
      StripOfWord(command);
    }
    IsValidCommandIsStrippedName(command);
  }

  // ---------------------------------------------------------------------------
  // Request frames

  /** A request as the user filled it in; `message` is the body text, each line ended by a newline. */
  datatype Request =
    | Send(sender: string, receiver: string, subject: string, message: string)
    | List(user: string)
    | Read(user: string, number: string)
    | Del(user: string, number: string)
    | Quit

  function RequestName(r: Request): string
  {
    match r
    case Send(_, _, _, _) => "SEND"
    case List(_) => "LIST"
    case Read(_, _) => "READ"
    case Del(_, _) => "DEL"
    case Quit => "QUIT"
  }

  /** The text sent for a request.  SEND adds no "." line; QUIT has no newline; the number is sent as typed. */
  function Frame(r: Request): string
  {
    match r
    case Send(s, rc, subject, message) => "SEND" + "\n" + s + "\n" + rc + "\n" + subject + "\n" + message + "\n"
    case List(u) => "LIST" + "\n" + u + "\n"
    case Read(u, n) => "READ" + "\n" + u + "\n" + n + "\n"
    case Del(u, n) => "DEL" + "\n" + u + "\n" + n + "\n"
    case Quit => "QUIT"
  }

  /** A frame starts with its command name; QUIT is the bare name, every other frame puts a newline after the name and ends with one. */
  lemma FrameShape(r: Request)
    ensures |RequestName(r)| <= |Frame(r)| && Frame(r)[..|RequestName(r)|] == RequestName(r)
    ensures r.Quit? ==> Frame(r) == RequestName(r)
    ensures !r.Quit? ==> |RequestName(r)| < |Frame(r)| && Frame(r)[|RequestName(r)|] == '\n' && Frame(r)[|Frame(r)| - 1] == '\n'
  {
  }

  /** Every user name a request carries passes isValidName. */
  predicate NamesValid(r: Request)
  {
    match r
    case Send(s, rc, _, _) => IsValidName(s) && IsValidName(rc)
    case List(u) => IsValidName(u)
    case Read(u, _) => IsValidName(u)
    case Del(u, _) => IsValidName(u)
    case Quit => true
  }

  // ---------------------------------------------------------------------------
  // Prompting

  /** Position of the first valid name among the console lines, or their number. */
  function FirstValid(console: seq<string>): (k: nat)
    ensures k <= |console|
    ensures forall j :: 0 <= j < k ==> !IsValidName(console[j])
    ensures k < |console| ==> IsValidName(console[k])
  {
    if console == [] || IsValidName(console[0]) then 0 else 1 + FirstValid(console[1..])
  }

  /**
    The name prompt loops for ever: no valid line comes before the input
    ends, and the last line read had no newline, so the stream was already at
    its end and std::getline left the invalid name in place.
   */
  predicate NameHangs(console: seq<string>, terminated: bool)
  {
    console != [] && FirstValid(console) == |console| && !terminated
  }

  /** The name a prompt settles on: the first valid line, or "" once the input has ended. */
  function NameAt(console: seq<string>): string
  {
    LineAt(console, FirstValid(console))
  }

  /** The console lines left after a name prompt. */
  function AfterName(console: seq<string>): seq<string>
  {
    Drop(console, FirstValid(console) + 1)
  }

  /**
    At the end of input after invalid names only, the prompt settles on ""
    when the last line ended in a newline, and hangs when it did not.
   */
  lemma NameAtEndOfInput(console: seq<string>)
    requires console != [] && forall j :: 0 <= j < |console| ==> !IsValidName(console[j])
    ensures !NameHangs(console, true) && NameAt(console) == "" && AfterName(console) == []
    ensures NameHangs(console, false)
  {
    assert FirstValid(console) == |console|;
  }

  /**
    A name prompt and its re-prompt loop: read a line, and read again while it
    is not a valid name.  At the end of input std::getline empties the name if
    the stream was still good, which it is after a last line that ended in a
    newline, and "" is a valid name.  After a last line without a newline the
    stream is already at its end, std::getline leaves the name as it was, and
    an invalid one keeps the loop going for ever (`hangs`).
   */
  method PromptName(console: seq<string>, terminated: bool) returns (name: string, rest: seq<string>, hangs: bool)
    ensures hangs <==> NameHangs(console, terminated)
    ensures !hangs ==> IsValidName(name) && name == NameAt(console) && rest == AfterName(console)
  {
    name := LineAt(console, 0);
    rest := Drop(console, 1);
    hangs := false;
    var i := 0;
    while !IsValidName(name)
      invariant i <= |console|
      invariant console == [] ==> name == "" && rest == []
      invariant console != [] ==> i < |console| && name == console[i] && rest == console[i + 1..]
      invariant forall j :: 0 <= j < i ==> !IsValidName(console[j])
      decreases |rest|
    {
      if rest == [] {
        assert forall j :: 0 <= j < |console| ==> !IsValidName(console[j]);
        if terminated {
          name := "";
          return;
        }
        hangs := true;
        return;
      }
      name := rest[0];
      rest := rest[1..];
      i := i + 1;
    }
    assert FirstValid(console) == i || console == [];
  }

  /**
    The SEND message body: each line typed before the first "." line, with its
    newline.  Without a "." line the loop reads on at the end of input for
    ever (`hangs`).
   */
  method CollectBody(console: seq<string>) returns (message: string, rest: seq<string>, hangs: bool)
    ensures hangs <==> DotIndex(console) == |console|
    ensures !hangs ==> message == JoinLines(console[..DotIndex(console)]) && rest == console[DotIndex(console) + 1..]
  {
    message := "";
    rest := [];
    var line: string;
    var k := 0;
    while true
      invariant k <= |console|
      invariant forall j :: 0 <= j < k ==> console[j] != "."
      invariant message == JoinLines(console[..k])
      decreases |console| - k
    {
      if k == |console| {
        hangs := true;
        return;
      }
      line := console[k];
      if line != "." {
        JoinLinesAppend(console[..k], [line]);
        JoinOfLinesStep(line, []);
        assert console[..k] + [line] == console[..k + 1];
        message := message + line + "\n";
        k := k + 1;
      } else {
        break;
      }
    }
    assert DotIndex(console) == k;
    rest := console[k + 1..];
    hangs := false;
  }

  /** What prompting for a command's fields ends in: a request and the unread input, or a loop that never ends. */
  datatype Composed = Composed(request: Request, rest: seq<string>) | Stuck

  /** The prompts for a command, in the client's order, and the request they fill. */
  method ComposeRequest(name: string, console: seq<string>, terminated: bool) returns (c: Composed)
    requires name in CommandNames
    ensures c.Composed? ==> NamesValid(c.request) && RequestName(c.request) == name
    ensures name == "QUIT" ==> c == Composed(Quit, console)
    ensures name == "LIST" ==>
              if NameHangs(console, terminated) then c.Stuck?
              else c == Composed(List(NameAt(console)), AfterName(console))
    ensures (name == "READ" || name == "DEL") ==>
              if NameHangs(console, terminated) then c.Stuck?
              else
                var after := AfterName(console);
                c.Composed? && c.request.user == NameAt(console)
                && c.request.number == LineAt(after, 0) && c.rest == Drop(after, 1)
    ensures name == "SEND" ==>
              var c1 := AfterName(console);
              var c2 := AfterName(c1);
              var c3 := Drop(c2, 1);
              if NameHangs(console, terminated) || NameHangs(c1, terminated) || DotIndex(c3) == |c3| then c.Stuck?
              else
                c.Composed?
                && c.request == Send(NameAt(console), NameAt(c1), LineAt(c2, 0), JoinLines(c3[..DotIndex(c3)]))
                && c.rest == c3[DotIndex(c3) + 1..]
  {
    if name == "SEND" {
      var sender, rest1, hangs1 := PromptName(console, terminated);
      if hangs1 {
        return Stuck;
      }
      var receiver, rest2, hangs2 := PromptName(rest1, terminated);
      if hangs2 {
        return Stuck;
      }
      var subject := LineAt(rest2, 0);
      var message, rest3, hangs3 := CollectBody(Drop(rest2, 1));
      if hangs3 {
        return Stuck;
      }
      return Composed(Send(sender, receiver, subject, message), rest3);
    } else if name == "LIST" {
      var inboxUser, rest1, hangs1 := PromptName(console, terminated);
      if hangs1 {
        return Stuck;
      }
      return Composed(List(inboxUser), rest1);
    } else if name == "READ" || name == "DEL" {
      var username, rest1, hangs1 := PromptName(console, terminated);
      if hangs1 {
        return Stuck;
      }
      var messageNumber := LineAt(rest1, 0);
      var request := if name == "READ" then Read(username, messageNumber) else Del(username, messageNumber);
      return Composed(request, Drop(rest1, 1));
    } else {
      return Composed(Quit, console);
    }
  }

  /**
    One command line of the session: an invalid line sends nothing and the
    usage is shown; a valid one prompts for the fields of the command its word
    names.
   */
  method HandleCommand(command: string, console: seq<string>, terminated: bool) returns (c: Option<Composed>)
    ensures c.Some? <==> IsValidCommand(command)
    ensures c.Some? && c.value.Composed? ==> RequestName(c.value.request) == Strip(command) && NamesValid(c.value.request)
  {
    var name := RequestedName(command);
    if name.None? {
      return None;
    }
    var composed := ComposeRequest(name.value, console, terminated);
    return Some(composed);
  }

  // ---------------------------------------------------------------------------
  // Waiting for the reply

  /** One recv call: the bytes it returned, or a result <= 0. */
  datatype Received = Data(bytes: string) | Failed

  /** A recv call that delivered at least one byte. */
  predicate Delivered(r: Received)
  {
    r.Data? && r.bytes != []
  }

  /** What one recv call adds to the reply: its bytes read as a C string, so up to the first NUL. */
  function Chunk(r: Received): string
  {
    if r.Data? then CStr(r.bytes) else ""
  }

  /** The text the received chunks add up to. */
  function Gathered(replies: seq<Received>): string
  {
    if replies == [] then "" else Chunk(replies[0]) + Gathered(replies[1..])
  }

  lemma {:induction false} GatheredAppend(replies: seq<Received>, r: Received)
    ensures Gathered(replies + [r]) == Gathered(replies) + Chunk(r)
    decreases |replies|
  {
    if replies == [] {
      assert [] + [r] == [r];
    } else {
      assert (replies + [r])[1..] == replies[1..] + [r];
      GatheredAppend(replies[1..], r);
    }
  }

  lemma GatheredStep(replies: seq<Received>, i: nat)
    requires i < |replies|
    ensures Gathered(replies[..i + 1]) == Gathered(replies[..i]) + Chunk(replies[i])
  {
    assert replies[..i + 1] == replies[..i] + [replies[i]];
    GatheredAppend(replies[..i], replies[i]);
  }

  /** How waiting for a reply ends: a text holding a newline after `used` chunks, the end of the session, or blocked. */
  datatype ResponseOutcome = Complete(response: string, used: nat) | Closed(used: nat) | Waiting

  /** The first `n` recv calls all delivered bytes. */
  predicate DeliveredUpTo(replies: seq<Received>, n: nat)
  {
    n <= |replies| && forall j :: 0 <= j < n ==> Delivered(replies[j])
  }

  /** The first `used` chunks all delivered bytes, and the last of them brought the first newline. */
  predicate CompletesAt(replies: seq<Received>, used: nat)
  {
    0 < used && DeliveredUpTo(replies, used)
    && '\n' in Gathered(replies[..used]) && '\n' !in Gathered(replies[..used - 1])
  }

  /** Call number `used` returned nothing, before any newline had arrived. */
  predicate ClosesAt(replies: seq<Received>, used: nat)
  {
    used < |replies| && !Delivered(replies[used])
    && DeliveredUpTo(replies, used) && '\n' !in Gathered(replies[..used])
  }

  /** Every call delivered bytes, and no newline came. */
  predicate StillWaiting(replies: seq<Received>)
  {
    DeliveredUpTo(replies, |replies|) && '\n' !in Gathered(replies)
  }

  lemma CompletesAfter(replies: seq<Received>, i: nat)
    requires DeliveredUpTo(replies, i + 1)
    requires '\n' !in Gathered(replies[..i]) && '\n' in Gathered(replies[..i + 1])
    ensures CompletesAt(replies, i + 1)
  {
  }

  /**
    The reply loop: append each received chunk until the text holds a newline;
    a recv result <= 0 ends the session, and with no further chunk recv blocks.
   */
  method ReadResponse(replies: seq<Received>) returns (r: ResponseOutcome)
    ensures r.Complete? ==> CompletesAt(replies, r.used) && r.response == Gathered(replies[..r.used])
    ensures r.Closed? ==> ClosesAt(replies, r.used)
    ensures r.Waiting? ==> StillWaiting(replies)
  {
    var serverResponse := "";
    var i := 0;
    while true
      invariant DeliveredUpTo(replies, i)
      invariant serverResponse == Gathered(replies[..i]) && '\n' !in serverResponse
      decreases |replies| - i
    {
      if i == |replies| {
        assert replies[..i] == replies;
        return Waiting;
      }
      var got := replies[i];
      if !Delivered(got) {
        return Closed(i);
      }
      var chunk := CStr(got.bytes);
      assert serverResponse + chunk == Gathered(replies[..i + 1]) by {
        GatheredStep(replies, i);
      }
      serverResponse := serverResponse + chunk;
      NextNewlineFinds(serverResponse);
      if NextNewline(serverResponse, 0) < |serverResponse| {
        CompletesAfter(replies, i);
        return Complete(serverResponse, i + 1);
      }
      i := i + 1;
    }
  }
}
