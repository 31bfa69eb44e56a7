/**
  What the mail server does, as functions: the unescaping of a received
  command, the text a SEND stores, and for each command the reply it sends
  and the filesystem it leaves behind.  The class MailServer.Server computes
  the same things step by step; the lemmas here state the promises of the
  protocol about them.
 */
module MailStore {
  import opened CppText
  import opened Files

  const OkReply: string := "OK\n"
  const ErrReply: string := "ERR\n"
  const InvalidFormatReply: string := "ERR Invalid message format\n"
  const NoInboxReply: string := "ERR User has no inbox\n"
  const SubjectPrefix: string := "Subject: "

  /**
    What the environment decides during one command: the clock, whether
    mkdir, opening a file and remove succeed, and the slot of the directory
    enumeration a new message file takes.
   */
  datatype Env = Env(timestamp: nat, mkdirSucceeds: bool, fileOpens: bool, removeSucceeds: bool, slot: nat)

  /** The reply a command sends (empty for none) and the filesystem afterwards. */
  datatype Outcome = Outcome(reply: string, dirs: Dirs)

  // ---------------------------------------------------------------------------
  // Unescaping: the two characters '\' 'n' stand for a line break

  predicate EscapeAt(s: string, i: int)
  {
    0 <= i && i + 1 < |s| && s[i] == '\\' && s[i + 1] == 'n'
  }

  predicate NoEscapes(s: string)
  {
    forall i :: 0 <= i < |s| ==> !EscapeAt(s, i)
  }

  /** Each '\' 'n' pair, found left to right, replaced by one newline. */
  function Unescape(s: string): string
  {
    if |s| < 2 then s
    else if EscapeAt(s, 0) then "\n" + Unescape(s[2..])
    else [s[0]] + Unescape(s[1..])
  }

  lemma UnescapeFirst(s: string)
    requires s != []
    ensures Unescape(s) != []
    ensures Unescape(s)[0] == if EscapeAt(s, 0) then '\n' else s[0]
  {
  }

  /** Unescaping leaves no '\' 'n' pair behind. */
  lemma {:induction false} UnescapeLeavesNoEscapes(s: string)
    ensures NoEscapes(Unescape(s))
    decreases |s|
  {
    if |s| >= 2 {
      var u := Unescape(s);
      if EscapeAt(s, 0) {
        UnescapeLeavesNoEscapes(s[2..]);
        assert forall i :: 1 <= i < |u| ==> (EscapeAt(u, i) <==> EscapeAt(Unescape(s[2..]), i - 1));
      } else {
        UnescapeLeavesNoEscapes(s[1..]);
        assert forall i :: 1 <= i < |u| ==> (EscapeAt(u, i) <==> EscapeAt(Unescape(s[1..]), i - 1));
        if |s[1..]| > 0 {
          UnescapeFirst(s[1..]);
        }
      }
    }
  }

  /** Text without a '\' 'n' pair is returned unchanged. */
  lemma {:induction false} UnescapeWithoutEscapes(s: string)
    requires NoEscapes(s)
    ensures Unescape(s) == s
    decreases |s|
  {
    if |s| >= 2 {
      var rest := s[1..];
      assert !EscapeAt(s, 0);
      assert NoEscapes(rest) by {
        forall i | 0 <= i < |rest| ensures !EscapeAt(rest, i) {
          assert !EscapeAt(s, i + 1);
        }
      }
      assert Unescape(s) == [s[0]] + Unescape(rest);
      UnescapeWithoutEscapes(rest);
      assert [s[0]] + rest == s;
    }
  }

  /** Unescaping twice is unescaping once. */
  lemma UnescapeIdempotent(s: string)
    ensures Unescape(Unescape(s)) == Unescape(s)
  {
    UnescapeLeavesNoEscapes(s);
    UnescapeWithoutEscapes(Unescape(s));
  }

  /** Unescaping respects a split just before a backslash. */
  lemma {:induction false} UnescapeAppendBackslash(a: string, b: string)
    requires b != [] && b[0] == '\\'
    ensures Unescape(a + b) == Unescape(a) + Unescape(b)
    decreases |a|
  {
    if a == [] {
      assert a + b == b;
    } else if |a| == 1 {
      assert (a + b)[1..] == b;
      assert !EscapeAt(a + b, 0);
    } else if EscapeAt(a, 0) {
      assert (a + b)[2..] == a[2..] + b;
      UnescapeAppendBackslash(a[2..], b);
    } else {
      assert (a + b)[1..] == a[1..] + b;
      UnescapeAppendBackslash(a[1..], b);
    }
  }

  /** Every '\' 'n' pair becomes one newline, whatever surrounds it. */
  lemma UnescapeSplits(a: string, b: string)
    ensures Unescape(a + "\\n" + b) == Unescape(a) + "\n" + Unescape(b)
  {
    var t := "\\n" + b;
    assert a + "\\n" + b == a + t;
    UnescapeAppendBackslash(a, t);
    assert t[2..] == b;
  }

  // ---------------------------------------------------------------------------
  // Reading a command: the lines std::getline yields

  /** The lines from position k on, or none when there are fewer. */
  function Drop(ls: seq<string>, k: nat): seq<string>
  {
    if k <= |ls| then ls[k..] else []
  }

  /** The name on the first line of a command. */
  function CommandName(command: string): string
  {
    LineAt(Lines(command), 0)
  }

  /** Position of the first line "." in `body`, or |body|. */
  function DotIndex(body: seq<string>): (k: nat)
    ensures k <= |body|
    ensures k < |body| ==> body[k] == "."
    ensures forall j :: 0 <= j < k ==> body[j] != "."
  {
    if body == [] || body[0] == "." then 0 else 1 + DotIndex(body[1..])
  }

  /** The SEND body lines after the "Message:" line: up to, not including, the first "." line. */
  function BodyLines(ls: seq<string>): seq<string>
  {
    var body := Drop(ls, 5);
    body[..DotIndex(body)]
  }

  /** The line after the terminating "." line, or "" when there is none. */
  function Trailing(ls: seq<string>): string
  {
    var body := Drop(ls, 5);
    var k := DotIndex(body);
    if k < |body| then LineAt(body, k + 1) else ""
  }

  // ---------------------------------------------------------------------------
  // SEND

  /** The header a SEND stores: sender, receiver, subject, the first message line, then an empty line. */
  function MessageHeader(sender: string, receiver: string, subject: string, first: string): string
  {
    "Sender: " + sender + "\n" + "Receiver: " + receiver + "\n" + "Subject: " + subject + "\n"
      + "Message: " + first + "\n" + "\n"
  }

  /** The text a SEND stores: the header, then each remaining body line followed by a newline. */
  function StoredText(sender: string, receiver: string, subject: string, first: string, more: seq<string>): string
  {
    MessageHeader(sender, receiver, subject, first) + JoinLines(more)
  }

  function HeaderLines(sender: string, receiver: string, subject: string, first: string): seq<string>
  {
    ["Sender: " + sender, "Receiver: " + receiver, "Subject: " + subject, "Message: " + first, ""]
  }

  /** The stored text of a SEND command: the `message` the server builds. */
  function SendMessageText(command: string): string
  {
    var ls := Lines(command);
    StoredText(LineAt(ls, 1), LineAt(ls, 2), LineAt(ls, 3), LineAt(ls, 4), BodyLines(ls))
  }

  /**
    The mailbox directory of a user, spool + "/" + user.  For the empty name
    that path ends in '/', and names the spool directory itself.
   */
  function MailboxDir(spool: string, user: string): (dir: string)
    ensures user == "" ==> dir == spool
    ensures user != "" ==> dir == spool + "/" + user
  {
    if user == "" then spool else spool + "/" + user
  }

  /** The name of a message file: sender and millisecond timestamp. */
  function MessageFileName(sender: string, timestamp: nat): string
  {
    sender + "_msg_" + NatToString(timestamp) + ".txt"
  }

  /** generateMessageFilename: directory, '/', file name. */
  function MessagePath(dir: string, sender: string, timestamp: nat): string
  {
    dir + "/" + MessageFileName(sender, timestamp)
  }

  /** Whether createDirectory succeeded, and the filesystem after it. */
  datatype Made = Made(ok: bool, dirs: Dirs)

  /**
    createDirectory: an empty path fails; an existing directory succeeds and
    changes nothing; otherwise it succeeds exactly when mkdir does.
   */
  function CreateDirectory(dirs: Dirs, path: string, mkdirSucceeds: bool): (m: Made)
    ensures m.ok <==> path != "" && path in m.dirs
    ensures m.dirs == dirs || (path !in dirs && m.dirs == dirs[path := []])
  {
    if path == "" then Made(false, dirs)
    else if path in dirs then Made(true, dirs)
    else if MkdirSucceeds(dirs, path, mkdirSucceeds) then Made(true, dirs[path := []])
    else Made(false, dirs)
  }

  /** SEND: check the trailer and the receiver, make sure the mailbox exists, write one file, reply. */
  function SendOutcome(dirs: Dirs, spool: string, command: string, env: Env): (o: Outcome)
    ensures o.reply in {InvalidFormatReply, ErrReply, OkReply}
  {
    var ls := Lines(command);
    if Trailing(ls) != "" then Outcome(InvalidFormatReply, dirs)
    else Deliver(dirs, MailboxDir(spool, LineAt(ls, 2)), LineAt(ls, 2), LineAt(ls, 1), SendMessageText(command), env)
  }

  /** The receiver checks of a well-formed SEND, then the file written into the receiver's mailbox `dir`. */
  function Deliver(dirs: Dirs, dir: string, receiver: string, sender: string, text: string, env: Env): Outcome
  {
    if receiver == "" then Outcome(ErrReply, dirs)
    else
      var made := if dir in dirs then Made(true, dirs) else CreateDirectory(dirs, dir, env.mkdirSucceeds);
      if !made.ok then Outcome(ErrReply, dirs)
      else Outcome(OkReply, WriteFile(made.dirs, MessagePath(dir, sender, env.timestamp), text, env.fileOpens, env.slot))
  }

  // ---------------------------------------------------------------------------
  // LIST

  /** The text after "Subject: " on the first line that starts with it, or "". */
  function FirstSubject(ls: seq<string>): string
  {
    if ls == [] then ""
    else if StartsWith(ls[0], SubjectPrefix) then ls[0][|SubjectPrefix|..]
    else FirstSubject(ls[1..])
  }

  /** extractSubjectFromMessage on the content of a message file. */
  function SubjectOf(content: string): string
  {
    FirstSubject(Lines(content))
  }

  /** listFilesInDirectory: the names of the regular files of a directory, or none when it cannot be opened. */
  function ListedNames(dirs: Dirs, dir: string): seq<string>
  {
    if dir in dirs then Names(dirs[dir]) else []
  }

  /** The subjects of the messages of a directory, in listing order. */
  function Subjects(dirs: Dirs, dir: string): seq<string>
  {
    var files := ListedNames(dirs, dir);
    seq(|files|, i requires 0 <= i < |files| => SubjectOf(ReadFile(dirs, dir + "/" + files[i])))
  }

  /** "<i>. <subject>" for i = 1, 2, ... */
  function Numbered(subjects: seq<string>): seq<string>
  {
    seq(|subjects|, i requires 0 <= i < |subjects| => NatToString(i + 1) + ". " + subjects[i])
  }

  function ListHeader(user: string, count: nat): string
  {
    NatToString(count) + " Mails found in Inbox of " + user
  }

  /** The LIST reply for a mailbox that exists. */
  function ListResponse(user: string, subjects: seq<string>): string
  {
    JoinLines([ListHeader(user, |subjects|)] + Numbered(subjects))
  }

  /** LIST for `user`: the numbered subjects of the mailbox, or the no-inbox error. */
  function ListMailbox(dirs: Dirs, spool: string, user: string): string
  {
    var dir := MailboxDir(spool, user);
    if dir !in dirs then NoInboxReply else ListResponse(user, Subjects(dirs, dir))
  }

  function ListReply(dirs: Dirs, spool: string, command: string): (r: string)
    ensures r != ""
  {
    ListMailbox(dirs, spool, LineAt(Lines(command), 1))
  }

  // ---------------------------------------------------------------------------
  // READ and DEL

  /** The message number of a READ or DEL command, as std::stoi reads its third line. */
  function Ordinal(command: string): Option<int>
  {
    Stoi(LineAt(Lines(command), 2))
  }

  predicate InRange(n: int, count: nat)
  {
    1 <= n <= count
  }

  /** READ n of the mailbox `dir`: the n-th listed file framed by "OK\n" and "\n", or "ERR\n". */
  function ReadMessage(dirs: Dirs, dir: string, n: int): (r: string)
    ensures r == ErrReply || StartsWith(r, "OK\n")
  {
    var files := ListedNames(dirs, dir);
    if !InRange(n, |files|) then ErrReply
    else
      var content := ReadFile(dirs, dir + "/" + files[n - 1]);
      if content != "" then "OK\n" + content + "\n" else ErrReply
  }

  function ReadReply(dirs: Dirs, spool: string, command: string): string
    requires Ordinal(command).Some?
  {
    ReadMessage(dirs, MailboxDir(spool, LineAt(Lines(command), 1)), Ordinal(command).value)
  }

  /** DEL n of the mailbox `dir`: remove the n-th listed file. */
  function DelMessage(dirs: Dirs, dir: string, n: int, removeSucceeds: bool): (o: Outcome)
    ensures o.reply in {OkReply, ErrReply}
    ensures o.reply == ErrReply ==> o.dirs == dirs
  {
    var files := ListedNames(dirs, dir);
    if !InRange(n, |files|) then Outcome(ErrReply, dirs)
    else
      var path := dir + "/" + files[n - 1];
      if RemoveSucceeds(dirs, path, removeSucceeds) then Outcome(OkReply, RemoveFile(dirs, path, removeSucceeds))
      else Outcome(ErrReply, dirs)
  }

  function DelOutcome(dirs: Dirs, spool: string, command: string, removeSucceeds: bool): Outcome
    requires Ordinal(command).Some?
  {
    DelMessage(dirs, MailboxDir(spool, LineAt(Lines(command), 1)), Ordinal(command).value, removeSucceeds)
  }

  /** READ and DEL act on the mailbox named by the second line and the number on the third. */
  lemma ParsedNumbered(dirs: Dirs, spool: string, command: string, removeSucceeds: bool)
    requires Ordinal(command).Some?
    ensures var ls := Lines(command);
            var dir := MailboxDir(spool, LineAt(ls, 1));
            var n := Stoi(LineAt(ls, 2)).value;
            ReadReply(dirs, spool, command) == ReadMessage(dirs, dir, n)
            && DelOutcome(dirs, spool, command, removeSucceeds) == DelMessage(dirs, dir, n, removeSucceeds)
  {
  }

  // ---------------------------------------------------------------------------
  // Dispatch

  /** READ and DEL need a number std::stoi accepts; any other command is always processed. */
  predicate Processable(command: string)
  {
    CommandName(command) == "READ" || CommandName(command) == "DEL" ==> Ordinal(command).Some?
  }

  /** processCommand: the reply and the filesystem after one received command. */
  function Dispatch(dirs: Dirs, spool: string, command: string, env: Env): (o: Outcome)
    requires Processable(command)
    ensures o.dirs != dirs ==> CommandName(command) == "SEND" || CommandName(command) == "DEL"
    ensures o.reply == "" <==> CommandName(command) !in {"SEND", "LIST", "READ", "DEL"}
  {
    var name := CommandName(command);
    if name == "SEND" then SendOutcome(dirs, spool, command, env)
    else if name == "LIST" then Outcome(ListReply(dirs, spool, command), dirs)
    else if name == "READ" then Outcome(ReadReply(dirs, spool, command), dirs)
    else if name == "DEL" then DelOutcome(dirs, spool, command, env.removeSucceeds)
    else Outcome("", dirs)
  }

  /** processCommand's result: the session goes on unless the command was QUIT. */
  predicate Continues(command: string)
  {
    CommandName(command) != "QUIT"
  }

  // ---------------------------------------------------------------------------
  // The stored message read back

  lemma JoinHeaderLines(a: string, b: string, c: string, d: string)
    ensures JoinLines([a, b, c, d, ""]) == a + "\n" + b + "\n" + c + "\n" + d + "\n" + "\n"
  {
    JoinFour(a, b, c, d, [""]);
    JoinOfLinesStep("", []);
    assert [""] + [] == [""];
    assert [a, b, c, d] + [""] == [a, b, c, d, ""];
  }

  lemma HeaderJoined(sender: string, receiver: string, subject: string, first: string)
    ensures MessageHeader(sender, receiver, subject, first) == JoinLines(HeaderLines(sender, receiver, subject, first))
  {
    JoinHeaderLines("Sender: " + sender, "Receiver: " + receiver, "Subject: " + subject, "Message: " + first);
  }

  /** A stored message reads back, line by line, as its header lines followed by its body lines. */
  lemma StoredTextLines(sender: string, receiver: string, subject: string, first: string, more: seq<string>)
    requires '\n' !in sender && '\n' !in receiver && '\n' !in subject && '\n' !in first
    requires NoNewlines(more)
    ensures Lines(StoredText(sender, receiver, subject, first, more)) == HeaderLines(sender, receiver, subject, first) + more
  {
    var ls := HeaderLines(sender, receiver, subject, first) + more;
    HeaderJoined(sender, receiver, subject, first);
    JoinLinesAppend(HeaderLines(sender, receiver, subject, first), more);
    assert NoNewlines(ls) by {
      forall i | 0 <= i < |ls| ensures '\n' !in ls[i] {
        if i >= 5 {
          assert ls[i] == more[i - 5];
        }
      }
    }
    LinesOfJoin(ls);
  }

  lemma FirstSubjectOfHeader(sender: string, receiver: string, subject: string, first: string, more: seq<string>)
    ensures FirstSubject(HeaderLines(sender, receiver, subject, first) + more) == subject
  {
    var ls := HeaderLines(sender, receiver, subject, first) + more;
    assert !StartsWith(ls[0], SubjectPrefix) by {
      assert |ls[0]| >= 9 ==> ls[0][..9][1] == 'e';
    }
    assert !StartsWith(ls[1], SubjectPrefix) by {
      assert |ls[1]| >= 9 ==> ls[1][..9][0] == 'R';
    }
    assert StartsWith(ls[2], SubjectPrefix) && ls[2][|SubjectPrefix|..] == subject;
    assert FirstSubject(ls) == FirstSubject(ls[1..]);
    assert FirstSubject(ls[1..]) == FirstSubject(ls[1..][1..]);
    assert ls[1..][1..][0] == ls[2];
  }

  /** extractSubjectFromMessage finds the subject a SEND stored. */
  lemma SubjectOfStoredText(sender: string, receiver: string, subject: string, first: string, more: seq<string>)
    requires '\n' !in sender && '\n' !in receiver && '\n' !in subject && '\n' !in first
    requires NoNewlines(more)
    ensures SubjectOf(StoredText(sender, receiver, subject, first, more)) == subject
  {
    StoredTextLines(sender, receiver, subject, first, more);
    FirstSubjectOfHeader(sender, receiver, subject, first, more);
  }

  /** An extracted subject is empty or the rest, after "Subject: ", of one line; so it holds no newline. */
  lemma {:induction false} FirstSubjectIsPartOfALine(ls: seq<string>)
    requires NoNewlines(ls)
    ensures FirstSubject(ls) == "" ||
            exists i :: 0 <= i < |ls| && StartsWith(ls[i], SubjectPrefix) && FirstSubject(ls) == ls[i][|SubjectPrefix|..]
    ensures '\n' !in FirstSubject(ls)
  {
    if ls != [] {
      if !StartsWith(ls[0], SubjectPrefix) {
        FirstSubjectIsPartOfALine(ls[1..]);
        if FirstSubject(ls) != "" {
          var i :| 0 <= i < |ls[1..]| && StartsWith(ls[1..][i], SubjectPrefix) && FirstSubject(ls[1..]) == ls[1..][i][|SubjectPrefix|..];
          assert ls[1..][i] == ls[i + 1];
        }
      } else {
        assert forall i :: 0 <= i < |ls[0]| - 9 ==> ls[0][9..][i] == ls[0][i + 9];
      }
    }
  }

  /** A subject never holds a line break, so each subject fills one line of the LIST reply. */
  lemma SubjectHasNoNewline(content: string)
    ensures '\n' !in SubjectOf(content)
  {
    LinesHaveNoNewlines(content);
    FirstSubjectIsPartOfALine(Lines(content));
  }

  lemma BodyLinesHaveNoNewlines(command: string)
    ensures NoNewlines(BodyLines(Lines(command)))
  {
    var ls := Lines(command);
    LinesHaveNoNewlines(command);
    var body := Drop(ls, 5);
    assert forall i :: 0 <= i < |BodyLines(ls)| ==> BodyLines(ls)[i] == ls[i + 5];
  }

  lemma LineAtHasNoNewline(command: string, i: nat)
    ensures '\n' !in LineAt(Lines(command), i)
  {
    LinesHaveNoNewlines(command);
  }

  /** The subject of the message a SEND stores is the fourth line of the command. */
  lemma SubjectOfSent(command: string)
    ensures SubjectOf(SendMessageText(command)) == LineAt(Lines(command), 3)
  {
    var ls := Lines(command);
    LineAtHasNoNewline(command, 1);
    LineAtHasNoNewline(command, 2);
    LineAtHasNoNewline(command, 3);
    LineAtHasNoNewline(command, 4);
    BodyLinesHaveNoNewlines(command);
    SubjectOfStoredText(LineAt(ls, 1), LineAt(ls, 2), LineAt(ls, 3), LineAt(ls, 4), BodyLines(ls));
  }

  // ---------------------------------------------------------------------------
  // Mailboxes seen through LIST

  /** The subjects of a directory's messages, entry by entry. */
  function EntrySubjects(es: seq<Entry>): seq<string>
  {
    seq(|es|, i requires 0 <= i < |es| => SubjectOf(es[i].content))
  }

  /** Reading the file at position i of a well-formed directory yields that entry's content. */
  lemma ReadFileAt(dirs: Dirs, dir: string, i: nat)
    requires WellFormed(dirs) && dir in dirs && i < |dirs[dir]|
    ensures ReadFile(dirs, dir + "/" + dirs[dir][i].name) == dirs[dir][i].content
  {
    SplitJoin(dir, dirs[dir][i].name);
    ContentAt(dirs[dir], i);
  }

  lemma SubjectsOfDir(dirs: Dirs, dir: string)
    requires WellFormed(dirs) && dir in dirs
    ensures Subjects(dirs, dir) == EntrySubjects(dirs[dir])
  {
    forall i | 0 <= i < |dirs[dir]|
      ensures Subjects(dirs, dir)[i] == EntrySubjects(dirs[dir])[i]
    {
      ReadFileAt(dirs, dir, i);
    }
  }

  /** A LIST response splits back into its header line and its numbered lines. */
  lemma ListResponseLines(user: string, ss: seq<string>)
    requires '\n' !in user
    requires forall i :: 0 <= i < |ss| ==> '\n' !in ss[i]
    ensures Lines(ListResponse(user, ss)) == [ListHeader(user, |ss|)] + Numbered(ss)
  {
    var ls := [ListHeader(user, |ss|)] + Numbered(ss);
    assert NoNewlines(ls) by {
      forall i | 0 <= i < |ls| ensures '\n' !in ls[i] {
        if i == 0 {
          assert '\n' !in NatToString(|ss|);
        } else {
          assert '\n' !in NatToString(i);
        }
      }
    }
    LinesOfJoin(ls);
  }

  lemma SubjectsHaveNoNewlines(dirs: Dirs, dir: string)
    requires dir in dirs
    ensures forall i :: 0 <= i < |Subjects(dirs, dir)| ==> '\n' !in Subjects(dirs, dir)[i]
  {
    forall i | 0 <= i < |Subjects(dirs, dir)| ensures '\n' !in Subjects(dirs, dir)[i] {
      SubjectHasNoNewline(ReadFile(dirs, dir + "/" + ListedNames(dirs, dir)[i]));
    }
  }

  /** The LIST reply for an existing mailbox: a header line with the count, then one numbered line per message. */
  lemma ListReplyLines(dirs: Dirs, spool: string, command: string)
    ensures var user := LineAt(Lines(command), 1);
            var dir := MailboxDir(spool, user);
            (dir !in dirs ==> ListReply(dirs, spool, command) == NoInboxReply)
            && (dir in dirs ==>
                  |Subjects(dirs, dir)| == |dirs[dir]|
                  && Lines(ListReply(dirs, spool, command))
                     == [ListHeader(user, |dirs[dir]|)] + Numbered(Subjects(dirs, dir)))
  {
    var user := LineAt(Lines(command), 1);
    var dir := MailboxDir(spool, user);
    if dir in dirs {
      LineAtHasNoNewline(command, 1);
      SubjectsHaveNoNewlines(dirs, dir);
      ListResponseLines(user, Subjects(dirs, dir));
    }
  }

  /**
    LIST with the empty name, which the client accepts, lists the spool
    directory itself, not a missing mailbox.  The mailboxes in it are
    directories and are not listed, so a spool without regular files of
    its own answers with zero mails.
   */
  lemma EmptyNameListsSpool(dirs: Dirs, spool: string)
    requires spool in dirs && dirs[spool] == []
    ensures ListMailbox(dirs, spool, "") == "0 Mails found in Inbox of \n"
  {
    assert Subjects(dirs, spool) == [];
    ListOfNoMails("");
  }

  /** The LIST reply for an empty mailbox is its header line alone, with the count 0. */
  lemma ListOfNoMails(user: string)
    ensures ListResponse(user, []) == "0 Mails found in Inbox of " + user + "\n"
  {
    var h := ListHeader(user, 0);
    assert NatToString(0) == "0";
    assert [h] + Numbered([]) == [h];
    JoinOfLinesStep(h, []);
  }

  // ---------------------------------------------------------------------------
  // SEND

  /** Which reply a SEND gets, and that only a successful one can change the filesystem. */
  lemma SendReplies(dirs: Dirs, spool: string, command: string, env: Env)
    ensures var ls := Lines(command);
            var o := SendOutcome(dirs, spool, command, env);
            var dir := MailboxDir(spool, LineAt(ls, 2));
            (o.reply == InvalidFormatReply <==> Trailing(ls) != "")
            && (o.reply == ErrReply <==> Trailing(ls) == "" && (LineAt(ls, 2) == "" || (dir !in dirs && !env.mkdirSucceeds)))
            && (o.reply == OkReply <==> Trailing(ls) == "" && LineAt(ls, 2) != "" && (dir in dirs || env.mkdirSucceeds))
            && (o.reply != OkReply ==> o.dirs == dirs)
  {
  }

  /** The server answers OK to a SEND whose message file could not be written, and nothing is stored. */
  lemma SendOkEvenIfUnsaved(dirs: Dirs, spool: string, command: string, env: Env)
    requires !env.fileOpens
    requires Trailing(Lines(command)) == "" && LineAt(Lines(command), 2) != ""
    requires MailboxDir(spool, LineAt(Lines(command), 2)) in dirs
    ensures SendOutcome(dirs, spool, command, env) == Outcome(OkReply, dirs)
  {
  }

  /** The file name of a message holds no '/' when the sender does not. */
  lemma MessageFileNameIsPlain(sender: string, timestamp: nat)
    requires '/' !in sender
    ensures '/' !in MessageFileName(sender, timestamp)
  {
    var digits := NatToString(timestamp);
    assert '/' !in digits by {
      assert forall i :: 0 <= i < |digits| ==> IsDigit(digits[i]);
    }
  }

  /** A message file lands in the directory it was generated for when the sender holds no '/'. */
  lemma MessagePathSplits(dir: string, sender: string, timestamp: nat)
    ensures '/' !in sender ==> SplitPath(MessagePath(dir, sender, timestamp)) == (dir, MessageFileName(sender, timestamp))
  {
    if '/' !in sender {
      MessageFileNameIsPlain(sender, timestamp);
      SplitJoin(dir, MessageFileName(sender, timestamp));
    }
  }

  /** Two messages from the same sender stored at different milliseconds get different files. */
  lemma MessagePathsDistinct(dir: string, sender: string, t1: nat, t2: nat)
    requires t1 != t2
    ensures MessagePath(dir, sender, t1) != MessagePath(dir, sender, t2)
  {
    var p1 := MessagePath(dir, sender, t1);
    var p2 := MessagePath(dir, sender, t2);
    var k := |dir| + 1 + |sender| + 5;
    if p1 == p2 {
      var n1 := NatToString(t1);
      var n2 := NatToString(t2);
      assert |n1| == |n2|;
      assert p1[k..k + |n1|] == n1;
      assert p2[k..k + |n2|] == n2;
      NatToStringInjective(t1, t2);
    }
  }

  lemma EntrySubjectsInserted(es: seq<Entry>, p: nat, e: Entry)
    requires p <= |es|
    ensures EntrySubjects(Inserted(es, p, e)) == Inserted(EntrySubjects(es), p, SubjectOf(e.content))
  {
  }

  /** Writing a file into an existing directory of a well-formed filesystem; a new file takes slot `at`. */
  lemma WriteIntoDir(m: Dirs, dir: string, name: string, text: string, at: nat)
    requires WellFormed(m) && dir in m && '/' !in name
    ensures var w := WriteFile(m, dir + "/" + name, text, true, at);
            var p := Slot(at, |m[dir]|);
            WellFormed(w) && dir in w
            && ReadFile(w, dir + "/" + name) == text
            && (name !in Names(m[dir]) ==>
                  Names(w[dir]) == Inserted(Names(m[dir]), p, name)
                  && EntrySubjects(w[dir]) == Inserted(EntrySubjects(m[dir]), p, SubjectOf(text)))
            && (name in Names(m[dir]) ==> Names(w[dir]) == Names(m[dir]))
            && (forall d :: d != dir ==> (d in w <==> d in m) && (d in m ==> w[d] == m[d]))
  {
    SplitJoin(dir, name);
    var w := WriteFile(m, dir + "/" + name, text, true, at);
    assert w == m[dir := Put(m[dir], name, text, at)];
    PutSpec(m[dir], name, text, at);
    if name !in Names(m[dir]) {
      var p := Slot(at, |m[dir]|);
      NamesInserted(m[dir], p, Entry(name, text));
      EntrySubjectsInserted(m[dir], p, Entry(name, text));
    }
  }

  /** A successful SEND writes the formatted message into the receiver's mailbox, created first if need be. */
  lemma SendWrites(dirs: Dirs, spool: string, command: string, env: Env)
    requires SendOutcome(dirs, spool, command, env).reply == OkReply
    ensures var ls := Lines(command);
            var dir := MailboxDir(spool, LineAt(ls, 2));
            var m := if dir in dirs then dirs else dirs[dir := []];
            SendOutcome(dirs, spool, command, env).dirs
              == WriteFile(m, MessagePath(dir, LineAt(ls, 1), env.timestamp), SendMessageText(command), env.fileOpens, env.slot)
  {
  }

  /**
    Writing a new or rewritten file into a mailbox that is created first when
    it is missing: a new file is listed at its slot, with its subject there.
   */
  lemma DeliverInto(dirs: Dirs, dir: string, name: string, text: string, at: nat)
    requires WellFormed(dirs) && '/' !in name
    ensures var m := if dir in dirs then dirs else dirs[dir := []];
            var w := WriteFile(m, dir + "/" + name, text, true, at);
            var p := Slot(at, |ListedNames(dirs, dir)|);
            WellFormed(w) && dir in w
            && ReadFile(w, dir + "/" + name) == text
            && (name !in ListedNames(dirs, dir) ==>
                  ListedNames(w, dir) == Inserted(ListedNames(dirs, dir), p, name)
                  && Subjects(w, dir) == Inserted(Subjects(dirs, dir), p, SubjectOf(text)))
            && (name in ListedNames(dirs, dir) ==> ListedNames(w, dir) == ListedNames(dirs, dir))
            && (forall d :: d != dir ==> (d in w <==> d in dirs) && (d in dirs ==> w[d] == dirs[d]))
  {
    var m := if dir in dirs then dirs else dirs[dir := []];
    var w := WriteFile(m, dir + "/" + name, text, true, at);
    if dir in dirs {
      WriteIntoDir(dirs, dir, name, text, at);
      SubjectsOfDir(dirs, dir);
    } else {
      WellFormedUpdate(dirs, dir, []);
      WriteIntoDir(m, dir, name, text, at);
      assert ListedNames(dirs, dir) == [] && Subjects(dirs, dir) == [];
    }
    SubjectsOfDir(w, dir);
  }

  /**
    A successful SEND with a sender that holds no '/' stores the message as
    one file of the receiver's mailbox, whose content is the formatted
    message; a new file is listed at the slot the filesystem gives it, with
    the command's subject, and no other directory changes.
   */
  lemma SendDelivers(dirs: Dirs, spool: string, command: string, env: Env)
    requires WellFormed(dirs) && env.fileOpens
    requires SendOutcome(dirs, spool, command, env).reply == OkReply
    requires '/' !in LineAt(Lines(command), 1)
    ensures var ls := Lines(command);
            var o := SendOutcome(dirs, spool, command, env);
            var dir := MailboxDir(spool, LineAt(ls, 2));
            var name := MessageFileName(LineAt(ls, 1), env.timestamp);
            var p := Slot(env.slot, |ListedNames(dirs, dir)|);
            WellFormed(o.dirs) && dir in o.dirs
            && ReadFile(o.dirs, dir + "/" + name) == SendMessageText(command)
            && (name !in ListedNames(dirs, dir) ==>
                  ListedNames(o.dirs, dir) == Inserted(ListedNames(dirs, dir), p, name)
                  && Subjects(o.dirs, dir) == Inserted(Subjects(dirs, dir), p, LineAt(ls, 3)))
            && (name in ListedNames(dirs, dir) ==> ListedNames(o.dirs, dir) == ListedNames(dirs, dir))
            && (forall d :: d != dir ==> (d in o.dirs <==> d in dirs) && (d in dirs ==> o.dirs[d] == dirs[d]))
  {
    var ls := Lines(command);
    var dir := MailboxDir(spool, LineAt(ls, 2));
    var name := MessageFileName(LineAt(ls, 1), env.timestamp);
    MessageFileNameIsPlain(LineAt(ls, 1), env.timestamp);
    SendWrites(dirs, spool, command, env);
    DeliverInto(dirs, dir, name, SendMessageText(command), env.slot);
    SubjectOfSent(command);
  }

  // ---------------------------------------------------------------------------
  // READ and DEL

  /** READ n returns the message LIST shows as number n, when it has content; anything else is ERR. */
  lemma ReadMatchesList(dirs: Dirs, dir: string, n: int)
    requires WellFormed(dirs)
    ensures !InRange(n, |ListedNames(dirs, dir)|) ==> ReadMessage(dirs, dir, n) == ErrReply
    ensures InRange(n, |ListedNames(dirs, dir)|) ==>
              var content := dirs[dir][n - 1].content;
              (content == "" ==> ReadMessage(dirs, dir, n) == ErrReply)
              && (content != "" ==> ReadMessage(dirs, dir, n) == "OK\n" + content + "\n")
              && SubjectOf(content) == Subjects(dirs, dir)[n - 1]
  {
    if InRange(n, |ListedNames(dirs, dir)|) {
      ReadFileAt(dirs, dir, n - 1);
      SubjectsOfDir(dirs, dir);
    }
  }

  lemma EntrySubjectsRemove(es: seq<Entry>, i: nat)
    requires i < |es|
    ensures EntrySubjects(es[..i] + es[i + 1..]) == EntrySubjects(es)[..i] + EntrySubjects(es)[i + 1..]
  {
  }

  lemma NamesRemove(es: seq<Entry>, i: nat)
    requires i < |es|
    ensures Names(es[..i] + es[i + 1..]) == Names(es)[..i] + Names(es)[i + 1..]
  {
  }

  /** Removing the file at position i of a well-formed directory. */
  lemma RemoveFromDir(dirs: Dirs, dir: string, i: nat)
    requires WellFormed(dirs) && dir in dirs && i < |dirs[dir]|
    ensures var es := dirs[dir];
            var path := dir + "/" + es[i].name;
            RemoveSucceeds(dirs, path, true)
            && RemoveFile(dirs, path, true) == dirs[dir := es[..i] + es[i + 1..]]
            && WellFormed(RemoveFile(dirs, path, true))
            && Names(es[..i] + es[i + 1..]) == Names(es)[..i] + Names(es)[i + 1..]
            && EntrySubjects(es[..i] + es[i + 1..]) == EntrySubjects(es)[..i] + EntrySubjects(es)[i + 1..]
  {
    var es := dirs[dir];
    SplitJoin(dir, es[i].name);
    assert es[i].name in Names(es) by { assert Names(es)[i] == es[i].name; }
    WithoutAt(es, i);
    NamesRemove(es, i);
    EntrySubjectsRemove(es, i);
  }

  /**
    DEL n removes exactly the message LIST shows as number n: the later ones
    move up by one and no other directory changes.  An out-of-range number or
    a failed remove changes nothing and answers ERR.
   */
  lemma DelRemovesListed(dirs: Dirs, dir: string, n: int, removeSucceeds: bool)
    requires WellFormed(dirs)
    ensures var files := ListedNames(dirs, dir);
            var o := DelMessage(dirs, dir, n, removeSucceeds);
            (!InRange(n, |files|) || !removeSucceeds ==> o == Outcome(ErrReply, dirs))
            && (InRange(n, |files|) && removeSucceeds ==>
                  o.reply == OkReply && WellFormed(o.dirs) && dir in o.dirs
                  && ListedNames(o.dirs, dir) == files[..n - 1] + files[n..]
                  && Subjects(o.dirs, dir) == Subjects(dirs, dir)[..n - 1] + Subjects(dirs, dir)[n..]
                  && (forall d :: d != dir ==> (d in o.dirs <==> d in dirs) && (d in dirs ==> o.dirs[d] == dirs[d])))
  {
    var files := ListedNames(dirs, dir);
    if InRange(n, |files|) {
      var es := dirs[dir];
      assert files[n - 1] == es[n - 1].name;
      RemoveFromDir(dirs, dir, n - 1);
      if removeSucceeds {
        var o := DelMessage(dirs, dir, n, removeSucceeds);
        SubjectsOfDir(dirs, dir);
        SubjectsOfDir(o.dirs, dir);
      }
    }
  }

  // ---------------------------------------------------------------------------
  // Every reply is one or more complete lines

  predicate EndsWithNewline(s: string)
  {
    s != [] && s[|s| - 1] == '\n'
  }

  lemma JoinLinesEndsWithNewline(ls: seq<string>)
    requires ls != []
    ensures EndsWithNewline(JoinLines(ls))
  {
    if |ls| > 1 {
      JoinLinesEndsWithNewline(ls[1..]);
    }
  }

  lemma ListReplyEnds(dirs: Dirs, spool: string, command: string)
    ensures EndsWithNewline(ListReply(dirs, spool, command))
  {
    var user := LineAt(Lines(command), 1);
    var dir := MailboxDir(spool, user);
    if dir in dirs {
      JoinLinesEndsWithNewline([ListHeader(user, |Subjects(dirs, dir)|)] + Numbered(Subjects(dirs, dir)));
    }
  }

  lemma SendReplyEnds(dirs: Dirs, spool: string, command: string, env: Env)
    ensures EndsWithNewline(SendOutcome(dirs, spool, command, env).reply)
  {
    SendReplies(dirs, spool, command, env);
  }

  lemma ReadReplyEnds(dirs: Dirs, spool: string, command: string)
    requires Ordinal(command).Some?
    ensures EndsWithNewline(ReadReply(dirs, spool, command))
  {
  }

  lemma DelReplyEnds(dirs: Dirs, spool: string, command: string, removeSucceeds: bool)
    requires Ordinal(command).Some?
    ensures EndsWithNewline(DelOutcome(dirs, spool, command, removeSucceeds).reply)
  {
  }

  /** processCommand answers SEND, LIST, READ and DEL with text ending in a newline, and nothing else at all. */
  lemma RepliesEndWithNewline(dirs: Dirs, spool: string, command: string, env: Env)
    requires Processable(command)
    ensures var o := Dispatch(dirs, spool, command, env);
            o.reply == "" || EndsWithNewline(o.reply)
  {
    var name := CommandName(command);
    if name == "SEND" {
      SendReplyEnds(dirs, spool, command, env);
    } else if name == "LIST" {
      ListReplyEnds(dirs, spool, command);
    } else if name == "READ" {
      ReadReplyEnds(dirs, spool, command);
    } else if name == "DEL" {
      DelReplyEnds(dirs, spool, command, env.removeSucceeds);
    }
  }
}
