/**
  The mail server object: the spool directory it was started with, the
  filesystem it works on and the `message` field a SEND fills.  Each method
  does its work step by step, as the server does, and promises the reply and
  the new filesystem that the functions of MailStore describe.  A reply is
  returned as a string instead of being sent on a socket.  The lines that
  successive std::getline calls on a command's std::istringstream return are
  `Lines(command)`; the k-th call yields `LineAt(lines, k)`, which is "" once
  the stream has failed.
 */
module MailServer {
  import opened CppText
  import opened Files
  import opened MailStore

  /** Position of the first '\' 'n' pair at or after `from`, or |s| when there is none (std::string::npos). */
  function FindEscape(s: string, from: nat): (k: nat)
    requires from <= |s|
    ensures from <= k <= |s|
    ensures k < |s| ==> EscapeAt(s, k)
    ensures forall i :: from <= i < k ==> !EscapeAt(s, i)
    decreases |s| - from
  {
    if from == |s| then |s|
    else if EscapeAt(s, from) then from
    else FindEscape(s, from + 1)
  }

  /** A stretch of text with no '\' 'n' pair in it. */
  lemma NoEscapesBetween(s: string, from: nat, to: nat)
    requires from <= to <= |s|
    requires forall i :: from <= i < to ==> !EscapeAt(s, i)
    ensures NoEscapes(s[from..to])
  {
    forall i | 0 <= i < to - from
      ensures !EscapeAt(s[from..to], i)
    {
      assert !EscapeAt(s, from + i);
    }
  }

  lemma AppendLine(header: string, done: seq<string>, line: string)
    ensures header + JoinLines(done) + line + "\n" == header + JoinLines(done + [line])
  {
    JoinLinesAppend(done, [line]);
    JoinOfLinesStep(line, []);
  }

  lemma NumberedAppend(ss: seq<string>, i: nat)
    requires i < |ss|
    ensures Numbered(ss[..i + 1]) == Numbered(ss[..i]) + [NatToString(i + 1) + ". " + ss[i]]
  {
  }

  lemma ListStart(header: string)
    ensures header + "\n" == JoinLines([header] + Numbered([]))
  {
    assert [header] + Numbered([]) == [header];
    JoinOfLinesStep(header, []);
  }

  /** One more numbered line appended to the LIST response. */
  lemma ListStep(header: string, ss: seq<string>, i: nat)
    requires i < |ss|
    ensures JoinLines([header] + Numbered(ss[..i])) + NatToString(i + 1) + ". " + ss[i] + "\n"
         == JoinLines([header] + Numbered(ss[..i + 1]))
  {
    var line := NatToString(i + 1) + ". " + ss[i];
    NumberedAppend(ss, i);
    JoinLinesAppend([header] + Numbered(ss[..i]), [line]);
    JoinOfLinesStep(line, []);
    assert [header] + Numbered(ss[..i + 1]) == [header] + Numbered(ss[..i]) + [line];
  }

  /** When no pair is left after `index`, the rest of the text is already unescaped. */
  lemma UnescapeDone(str: string, index: nat)
    requires index <= |str|
    requires forall i :: index <= i < |str| ==> !EscapeAt(str, i)
    ensures str[..index] + Unescape(str[index..]) == str
  {
    NoEscapesBetween(str, index, |str|);
    assert str[index..|str|] == str[index..];
    UnescapeWithoutEscapes(str[index..]);
    assert str[..index] + str[index..] == str;
  }

  /** Unescaping from `index` when the first pair from there sits at `found`. */
  lemma UnescapeAtPair(str: string, index: nat, found: nat)
    requires index <= found < |str| && EscapeAt(str, found)
    requires forall i :: index <= i < found ==> !EscapeAt(str, i)
    ensures Unescape(str[index..]) == str[index..found] + "\n" + Unescape(str[found + 2..])
  {
    var a := str[index..found];
    var b := str[found + 2..];
    NoEscapesBetween(str, index, found);
    UnescapeWithoutEscapes(a);
    assert str[found..found + 2] == "\\n";
    assert str[index..] == a + "\\n" + b;
    UnescapeSplits(a, b);
  }

  /** Rewriting the first pair after `index` in place keeps what unescaping the whole text yields. */
  lemma UnescapeStep(str: string, index: nat, found: nat)
    requires index <= found < |str| && EscapeAt(str, found)
    requires forall i :: index <= i < found ==> !EscapeAt(str, i)
    ensures found + 1 <= |str[..found] + "\n" + str[found + 2..]|
    ensures (str[..found] + "\n" + str[found + 2..])[..found + 1]
              + Unescape((str[..found] + "\n" + str[found + 2..])[found + 1..])
            == str[..index] + Unescape(str[index..])
  {
    var next := str[..found] + "\n" + str[found + 2..];
    var u := Unescape(str[found + 2..]);
    UnescapeAtPair(str, index, found);
    assert next[..found + 1] == str[..index] + str[index..found] + "\n";
    assert next[found + 1..] == str[found + 2..];
    assert str[..index] + str[index..found] + "\n" + u == str[..index] + (str[index..found] + "\n" + u);
  }

  class Server {
    const mailSpoolDir: string
    const fs: FileSystem
    var message: string

    ghost predicate Valid()
      reads this, fs
    {
      fs.Valid()
    }

    /** The server over a spool directory, which it creates unless it exists already. */
    constructor (mailSpoolDir: string, fs: FileSystem, mkdirSucceeds: bool)
      requires fs.Valid()
      modifies fs
      ensures Valid() && this.mailSpoolDir == mailSpoolDir && this.fs == fs
      ensures fs.dirs == MailStore.CreateDirectory(old(fs.dirs), mailSpoolDir, mkdirSucceeds).dirs
    {
      this.mailSpoolDir := mailSpoolDir;
      this.fs := fs;
      message := "";
      new;
      var created := CreateDirectory(mailSpoolDir, mkdirSucceeds);
    }

    /** Replaces, left to right, each '\' 'n' pair of the received text by a newline. */
    method ReplaceBackslashNWithNewline(s: string) returns (str: string)
      ensures str == Unescape(s)
    {
      str := s;
      var index := 0;
      while true
        invariant index <= |str|
        invariant str[..index] + Unescape(str[index..]) == Unescape(s)
        decreases |str| - index
      {
        var found := FindEscape(str, index);
        if found == |str| {
          UnescapeDone(str, index);
          break;
        }
        UnescapeStep(str, index, found);
        str := str[..found] + "\n" + str[found + 2..];
        index := found + 1;
      }
    }

    /** directoryExists: whether `path` names a directory of the spool. */
    predicate DirectoryExists(path: string)
      reads this, fs
      ensures DirectoryExists(path) <==> path in fs.dirs
    {
      fs.IsDirectory(path)
    }

    /** createDirectory: succeeds on an existing directory, otherwise exactly when mkdir does. */
    method CreateDirectory(path: string, mkdirSucceeds: bool) returns (ok: bool)
      requires Valid()
      modifies fs
      ensures Valid()
      ensures Made(ok, fs.dirs) == MailStore.CreateDirectory(old(fs.dirs), path, mkdirSucceeds)
    {
      if path == "" {
        return false;
      }
      if !fs.IsDirectory(path) {
        var made := fs.Mkdir(path, mkdirSucceeds);
        if !made {
          return false;
        }
      }
      return true;
    }

    /** The path of a new message file: in `dir`, named after the sender and the millisecond timestamp. */
    function GenerateMessageFilename(dir: string, sender: string, receiver: string, timestamp: nat): (filename: string)
      ensures '/' !in sender ==> SplitPath(filename) == (dir, MessageFileName(sender, timestamp))
    {
      MessagePathSplits(dir, sender, timestamp);
      MessagePath(dir, sender, timestamp)
    }

    /** saveMessage: writes the file when it opens, a new one at enumeration slot `at`; nothing happens otherwise. */
    method SaveMessage(filename: string, message: string, opens: bool, at: nat)
      requires Valid()
      modifies fs
      ensures Valid()
      ensures fs.dirs == WriteFile(old(fs.dirs), filename, message, opens, at)
    {
      var written := fs.Write(filename, message, opens, at);
    }

    /** The message lines up to the first "." line, each appended to `message` with its newline; the index of that line. */
    method AppendBody(body: seq<string>) returns (j: nat)
      modifies this
      ensures j == DotIndex(body)
      ensures message == old(message) + JoinLines(body[..j])
    {
      ghost var header := message;
      j := 0;
      while j < |body| && body[j] != "."
        invariant j <= |body|
        invariant forall i :: 0 <= i < j ==> body[i] != "."
        invariant message == header + JoinLines(body[..j])
      {
        AppendLine(header, body[..j], body[j]);
        assert body[..j] + [body[j]] == body[..j + 1];
        message := message + body[j] + "\n";
        j := j + 1;
      }
    }

    /** processSendCommand: the reply, the new filesystem, and the stored text left in `message`. */
    method ProcessSendCommand(command: string, env: Env) returns (ok: bool, reply: string)
      requires Valid()
      modifies this, fs
      ensures Valid()
      ensures message == SendMessageText(command)
      ensures reply == SendOutcome(old(fs.dirs), mailSpoolDir, command, env).reply
      ensures fs.dirs == SendOutcome(old(fs.dirs), mailSpoolDir, command, env).dirs
      ensures ok <==> reply == OkReply
    {
      var lines := Lines(command);
      var sender := LineAt(lines, 1);
      var receiver := LineAt(lines, 2);
      var subject := LineAt(lines, 3);
      var text := LineAt(lines, 4);

      message := "Sender: " + sender + "\n" + "Receiver: " + receiver + "\n" + "Subject: " + subject + "\n"
        + "Message: " + text + "\n" + "\n";
      var body := Drop(lines, 5);
      var j := AppendBody(body);
      assert message == SendMessageText(command) by {
        assert DotIndex(body) == j;
      }
      var trailer := if j < |body| then LineAt(body, j + 1) else "";
      assert trailer == Trailing(lines) by {
        assert DotIndex(body) == j;
      }
      if trailer != "" {
        return false, InvalidFormatReply;
      }

      var receiverDir := mailSpoolDir + "/" + receiver;
      if receiver == "" {
        return false, ErrReply;
      }
      if !DirectoryExists(receiverDir) {
        var created := CreateDirectory(receiverDir, env.mkdirSucceeds);
        if !created {
          return false, ErrReply;
        }
      }
      var filename := GenerateMessageFilename(receiverDir, sender, receiver, env.timestamp);
      SaveMessage(filename, message, env.fileOpens, env.slot);
      return true, OkReply;
    }

    /** listFilesInDirectory: the names of the files of a directory in enumeration order; none when it cannot be opened. */
    method ListFilesInDirectory(path: string) returns (files: seq<string>)
      ensures files == ListedNames(fs.dirs, path)
    {
      files := [];
      if path in fs.dirs {
        var entries := fs.dirs[path];
        var k := 0;
        while k < |entries|
          invariant k <= |entries|
          invariant files == Names(entries[..k])
        {
          files := files + [entries[k].name];
          k := k + 1;
        }
        assert entries[..k] == entries;
      }
    }

    /** readFileContent: the whole file, or "" when it cannot be opened. */
    function ReadFileContent(filePath: string): (content: string)
      reads this, fs
      ensures var (dir, name) := SplitPath(filePath);
              if dir in fs.dirs && Find(fs.dirs[dir], name) < |fs.dirs[dir]|
              then content == fs.dirs[dir][Find(fs.dirs[dir], name)].content
              else content == ""
    {
      ReadFile(fs.dirs, filePath)
    }

    /** extractSubjectFromMessage: the rest of the first line that starts with "Subject: ", or "". */
    method ExtractSubjectFromMessage(filePath: string) returns (subject: string)
      ensures subject == SubjectOf(ReadFile(fs.dirs, filePath))
    {
      var rest := ReadFileContent(filePath);
      while true
        invariant FirstSubject(Lines(rest)) == SubjectOf(ReadFile(fs.dirs, filePath))
        decreases |rest|
      {
        var g := GetLine(rest);
        if !g.ok {
          return "";
        }
        if StartsWith(g.line, SubjectPrefix) {
          return g.line[|SubjectPrefix|..];
        }
        rest := g.rest;
      }
    }

    /** processListCommand: the count line, then one numbered subject line per message. */
    method ProcessListCommand(command: string) returns (reply: string)
      ensures reply == ListReply(fs.dirs, mailSpoolDir, command)
    {
      var lines := Lines(command);
      var username := LineAt(lines, 1);

      // mailSpoolDir + "/" + username: for the empty name, the spool directory itself
      var userDir := MailboxDir(mailSpoolDir, username);
      if !DirectoryExists(userDir) {
        return NoInboxReply;
      }
      var files := ListFilesInDirectory(userDir);
      ghost var ss := Subjects(fs.dirs, userDir);
      ghost var header := ListHeader(username, |files|);
      var response := NatToString(|files|) + " Mails found in Inbox of " + username + "\n";
      var messageNumber := 1;
      ListStart(header);
      for i := 0 to |files|
        invariant messageNumber == i + 1
        invariant response == JoinLines([header] + Numbered(ss[..i]))
      {
        var subject := ExtractSubjectFromMessage(userDir + "/" + files[i]);
        assert subject == ss[i];
        ListStep(header, ss, i);
        response := response + NatToString(messageNumber) + ". " + subject + "\n";
        messageNumber := messageNumber + 1;
      }
      assert ss[..|files|] == ss;
      return response;
    }

    /** processReadCommand: the n-th listed message, framed by "OK\n" and "\n", or "ERR\n". */
    method ProcessReadCommand(command: string) returns (reply: string)
      requires Ordinal(command).Some?
      ensures reply == ReadReply(fs.dirs, mailSpoolDir, command)
    {
      var lines := Lines(command);
      var username := LineAt(lines, 1);
      var messageNumber := Stoi(LineAt(lines, 2)).value;

      var userDir := MailboxDir(mailSpoolDir, username);
      ParsedNumbered(fs.dirs, mailSpoolDir, command, false);
      reply := ReadListed(userDir, messageNumber);
    }

    /** The part of processReadCommand after parsing: the file listed as number n of `userDir`. */
    method ReadListed(userDir: string, messageNumber: int) returns (reply: string)
      ensures reply == ReadMessage(fs.dirs, userDir, messageNumber)
    {
      var files := ListFilesInDirectory(userDir);
      if messageNumber < 1 || messageNumber > |files| {
        return ErrReply;
      }
      var filename := userDir + "/" + files[messageNumber - 1];
      var messageContent := ReadFileContent(filename);
      if messageContent != "" {
        return "OK\n" + messageContent + "\n";
      } else {
        return ErrReply;
      }
    }

    /** processDelCommand: removes the n-th listed message and answers OK, or answers ERR. */
    method ProcessDelCommand(command: string, removeSucceeds: bool) returns (reply: string)
      requires Valid() && Ordinal(command).Some?
      modifies fs
      ensures Valid()
      ensures reply == DelOutcome(old(fs.dirs), mailSpoolDir, command, removeSucceeds).reply
      ensures fs.dirs == DelOutcome(old(fs.dirs), mailSpoolDir, command, removeSucceeds).dirs
    {
      var lines := Lines(command);
      var username := LineAt(lines, 1);
      var messageNumber := Stoi(LineAt(lines, 2)).value;

      var userDir := MailboxDir(mailSpoolDir, username);
      ParsedNumbered(fs.dirs, mailSpoolDir, command, removeSucceeds);
      reply := DeleteListed(userDir, messageNumber, removeSucceeds);
    }

    /** The part of processDelCommand after parsing: remove the file listed as number n of `userDir`. */
    method DeleteListed(userDir: string, messageNumber: int, removeSucceeds: bool) returns (reply: string)
      requires Valid()
      modifies fs
      ensures Valid()
      ensures reply == DelMessage(old(fs.dirs), userDir, messageNumber, removeSucceeds).reply
      ensures fs.dirs == DelMessage(old(fs.dirs), userDir, messageNumber, removeSucceeds).dirs
    {
      var files := ListFilesInDirectory(userDir);
      if messageNumber < 1 || messageNumber > |files| {
        return ErrReply;
      }
      var fileToDelete := userDir + "/" + files[messageNumber - 1];
      var removed := fs.Remove(fileToDelete, removeSucceeds);
      if !removed {
        return ErrReply;
      } else {
        return OkReply;
      }
    }

    /** processCommand: run the command its first line names; only QUIT ends the session. */
    method ProcessCommand(command: string, env: Env) returns (continues: bool, reply: string)
      requires Valid() && Processable(command)
      modifies this, fs
      ensures Valid()
      ensures continues <==> Continues(command)
      ensures CommandName(command) == "SEND" ==> message == SendMessageText(command)
      ensures CommandName(command) != "SEND" ==> message == old(message)
      ensures reply == Dispatch(old(fs.dirs), mailSpoolDir, command, env).reply
      ensures fs.dirs == Dispatch(old(fs.dirs), mailSpoolDir, command, env).dirs
    {
      var commandName := LineAt(Lines(command), 0);
      reply := "";
      if commandName == "SEND" {
        var sent;
        sent, reply := ProcessSendCommand(command, env);
      } else if commandName == "LIST" {
        reply := ProcessListCommand(command);
      } else if commandName == "READ" {
        reply := ProcessReadCommand(command);
      } else if commandName == "DEL" {
        reply := ProcessDelCommand(command, env.removeSucceeds);
      } else if commandName == "QUIT" {
        return false, reply;
      }
      return true, reply;
    }
  }
}
