/**
  The client and the server together: how the server reads the frames the
  client sends, and what a SEND followed by a LIST or a READ of the same
  mailbox returns.  A frame is taken as the text processCommand receives, so
  it is assumed to arrive in one piece and to hold no '\' 'n' pair, which
  the server would turn into a line break.
 */
module Exchange {
  import opened CppText
  import opened Files
  import opened MailStore
  import opened MailClient

  /** No field of a request holds a newline, and the message body is a run of complete lines. */
  predicate WellFormedRequest(r: Request)
  {
    match r
    case Send(s, rc, subject, message) =>
      '\n' !in s && '\n' !in rc && '\n' !in subject && (message == [] || message[|message| - 1] == '\n')
    case List(u) => '\n' !in u
    case Read(u, n) => '\n' !in u && '\n' !in n
    case Del(u, n) => '\n' !in u && '\n' !in n
    case Quit => true
  }

  /** The lines the server reads from a frame. */
  function FrameLines(r: Request): seq<string>
  {
    match r
    case Send(s, rc, subject, message) => ["SEND", s, rc, subject] + Lines(message) + [""]
    case List(u) => ["LIST", u]
    case Read(u, n) => ["READ", u, n]
    case Del(u, n) => ["DEL", u, n]
    case Quit => ["QUIT"]
  }

  /** A body of complete lines is rebuilt from its lines. */
  lemma BodyOfLines(message: string)
    requires message == [] || message[|message| - 1] == '\n'
    ensures JoinLines(Lines(message)) == message
    ensures NoNewlines(Lines(message))
  {
    JoinOfLines(message);
    LinesHaveNoNewlines(message);
  }

  /** One empty line more adds one newline. */
  lemma JoinEmptyLine(ls: seq<string>)
    ensures JoinLines(ls + [""]) == JoinLines(ls) + "\n"
  {
    JoinLinesAppend(ls, [""]);
    JoinOfLinesStep("", []);
    assert [""] + [] == [""];
  }

  /** The body of a SEND frame and the empty line after it, joined. */
  lemma SentBodyJoined(message: string)
    requires message == [] || message[|message| - 1] == '\n'
    ensures JoinLines(Lines(message) + [""]) == message + "\n"
  {
    BodyOfLines(message);
    JoinEmptyLine(Lines(message));
  }

  /** A SEND frame is its lines, each followed by a newline. */
  lemma SendFrameJoined(s: string, rc: string, subject: string, message: string)
    requires message == [] || message[|message| - 1] == '\n'
    ensures Frame(Send(s, rc, subject, message)) == JoinLines(FrameLines(Send(s, rc, subject, message)))
  {
    var tail := Lines(message) + [""];
    SentBodyJoined(message);
    JoinFour("SEND", s, rc, subject, tail);
    assert FrameLines(Send(s, rc, subject, message)) == ["SEND", s, rc, subject] + tail;
  }

  /** The lines of a SEND frame hold no newline. */
  lemma SendFrameLinesPlain(s: string, rc: string, subject: string, message: string)
    requires WellFormedRequest(Send(s, rc, subject, message))
    ensures NoNewlines(FrameLines(Send(s, rc, subject, message)))
  {
    var body := Lines(message);
    var ls := FrameLines(Send(s, rc, subject, message));
    LinesHaveNoNewlines(message);
    forall i | 0 <= i < |ls| ensures '\n' !in ls[i] {
      if 4 <= i < |ls| - 1 {
        assert ls[i] == body[i - 4];
      }
    }
  }

  lemma SendFrameLines(s: string, rc: string, subject: string, message: string)
    requires WellFormedRequest(Send(s, rc, subject, message))
    ensures Lines(Frame(Send(s, rc, subject, message))) == FrameLines(Send(s, rc, subject, message))
  {
    SendFrameJoined(s, rc, subject, message);
    SendFrameLinesPlain(s, rc, subject, message);
    LinesOfJoin(FrameLines(Send(s, rc, subject, message)));
  }

  lemma LastLine(b: string)
    requires '\n' !in b
    ensures Lines(b + "\n") == [b]
  {
    assert Lines(b + "\n" + "") == [b] + Lines("") by {
      LinesOfLine(b, "");
    }
    assert b + "\n" + "" == b + "\n";
  }

  lemma TwoLines(a: string, b: string)
    requires '\n' !in a && '\n' !in b
    ensures Lines(a + "\n" + b + "\n") == [a, b]
  {
    var u := b + "\n";
    assert a + "\n" + b + "\n" == a + "\n" + u;
    LinesOfLine(a, u);
    LastLine(b);
  }

  lemma ThreeLines(a: string, b: string, c: string)
    requires '\n' !in a && '\n' !in b && '\n' !in c
    ensures Lines(a + "\n" + b + "\n" + c + "\n") == [a, b, c]
  {
    assert a + "\n" + b + "\n" + c + "\n" == a + "\n" + (b + "\n" + c + "\n");
    LinesOfLine(a, b + "\n" + c + "\n");
    TwoLines(b, c);
  }

  /** The server reads back exactly the lines the client put in a frame. */
  lemma LinesOfFrame(r: Request)
    requires WellFormedRequest(r)
    ensures Lines(Frame(r)) == FrameLines(r)
  {
    match r
    case Send(s, rc, subject, message) =>
      SendFrameLines(s, rc, subject, message);
    case List(u) =>
      TwoLines("LIST", u);
    case Read(u, n) =>
      ThreeLines("READ", u, n);
    case Del(u, n) =>
      ThreeLines("DEL", u, n);
    case Quit =>
      assert GetLine("QUIT") == Got(true, "QUIT", []) by {
        assert NextNewline("QUIT", 0) == 4;
      }
  }

  /**
    The server runs the command the client sent, and only QUIT ends the
    session.  A READ or DEL frame reaches the server's processing only when
    std::stoi accepts its number line.
   */
  lemma CommandOfFrame(r: Request)
    requires WellFormedRequest(r)
    ensures CommandName(Frame(r)) == RequestName(r)
    ensures Continues(Frame(r)) <==> !r.Quit?
    ensures Processable(Frame(r)) <==> ((r.Read? || r.Del?) ==> Stoi(r.number).Some?)
  {
    LinesOfFrame(r);
  }

  /** LIST lists the mailbox the frame names. */
  lemma ListOfFrame(dirs: Dirs, spool: string, u: string)
    requires '\n' !in u
    ensures ListReply(dirs, spool, Frame(List(u))) == ListMailbox(dirs, spool, u)
  {
    LinesOfFrame(List(u));
  }

  /** READ reads, from the mailbox the frame names, the message its number line gives. */
  lemma ReadOfFrame(dirs: Dirs, spool: string, u: string, n: string)
    requires '\n' !in u && '\n' !in n
    ensures Ordinal(Frame(Read(u, n))) == Stoi(n)
    ensures Stoi(n).Some? ==>
              ReadReply(dirs, spool, Frame(Read(u, n))) == ReadMessage(dirs, MailboxDir(spool, u), Stoi(n).value)
  {
    LinesOfFrame(Read(u, n));
  }

  /** DEL deletes, from the mailbox the frame names, the message its number line gives. */
  lemma DelOfFrame(dirs: Dirs, spool: string, u: string, n: string, removeSucceeds: bool)
    requires '\n' !in u && '\n' !in n
    ensures Ordinal(Frame(Del(u, n))) == Stoi(n)
    ensures Stoi(n).Some? ==>
              DelOutcome(dirs, spool, Frame(Del(u, n)), removeSucceeds)
              == DelMessage(dirs, MailboxDir(spool, u), Stoi(n).value, removeSucceeds)
  {
    LinesOfFrame(Del(u, n));
  }

  /** The lines of a sent body as the server reads them: the body, then the empty line the frame ends with. */
  function SentBody(message: string): seq<string>
  {
    Lines(message) + [""]
  }

  /**
    The server reads the fields of a SEND frame back; since the client sends
    no "." line, nothing trails the body and the stored body ends with the
    frame's final empty line.
   */
  lemma SendOfFrame(s: string, rc: string, subject: string, message: string)
    requires WellFormedRequest(Send(s, rc, subject, message))
    requires forall i :: 0 <= i < |Lines(message)| ==> Lines(message)[i] != "."
    ensures var ls := Lines(Frame(Send(s, rc, subject, message)));
            var b := SentBody(message);
            LineAt(ls, 1) == s && LineAt(ls, 2) == rc && LineAt(ls, 3) == subject
            && Trailing(ls) == ""
            && SendMessageText(Frame(Send(s, rc, subject, message))) == StoredText(s, rc, subject, b[0], b[1..])
  {
    var r := Send(s, rc, subject, message);
    SendFrameLines(s, rc, subject, message);
    var b := SentBody(message);
    SentBodyHasNoDot(message);
    assert FrameLines(r) == ["SEND", s, rc, subject] + b;
    SendLinesParsed(Lines(Frame(r)), s, rc, subject, b);
  }

  lemma SentBodyHasNoDot(message: string)
    requires forall i :: 0 <= i < |Lines(message)| ==> Lines(message)[i] != "."
    ensures forall j :: 1 <= j < |SentBody(message)| ==> SentBody(message)[j] != "."
  {
    var b := SentBody(message);
    forall j | 1 <= j < |b| ensures b[j] != "." {
      if j < |Lines(message)| {
        assert b[j] == Lines(message)[j];
      }
    }
  }

  /** The fields the server takes from the lines of a SEND whose body holds no "." line after its first. */
  lemma SendLinesParsed(ls: seq<string>, s: string, rc: string, subject: string, b: seq<string>)
    requires ls == ["SEND", s, rc, subject] + b && b != []
    requires forall j :: 1 <= j < |b| ==> b[j] != "."
    ensures LineAt(ls, 1) == s && LineAt(ls, 2) == rc && LineAt(ls, 3) == subject && LineAt(ls, 4) == b[0]
    ensures Trailing(ls) == "" && BodyLines(ls) == b[1..]
  {
    assert Drop(ls, 5) == b[1..];
    assert DotIndex(b[1..]) == |b[1..]| by {
      forall j | 0 <= j < |b[1..]| ensures b[1..][j] != "." {
        assert b[1..][j] == b[j + 1];
      }
    }
  }

  /** The reply to a SEND frame: an empty receiver, which the client accepts, is refused. */
  lemma SendFrameReply(dirs: Dirs, spool: string, s: string, rc: string, subject: string, message: string, env: Env)
    requires WellFormedRequest(Send(s, rc, subject, message))
    requires forall i :: 0 <= i < |Lines(message)| ==> Lines(message)[i] != "."
    ensures var o := SendOutcome(dirs, spool, Frame(Send(s, rc, subject, message)), env);
            o.reply == (if rc != "" && (MailboxDir(spool, rc) in dirs || env.mkdirSucceeds) then OkReply else ErrReply)
  {
    SendOfFrame(s, rc, subject, message);
    SendReplies(dirs, spool, Frame(Send(s, rc, subject, message)), env);
  }

  /**
    Sending a message to a valid receiver and then reading, from that
    mailbox, the number LIST gives the new file returns the stored message.
    That number is one more than the enumeration slot the filesystem put the
    file in.
   */
  lemma SendThenRead(dirs: Dirs, spool: string, s: string, rc: string, subject: string, message: string, env: Env)
    requires WellFormed(dirs) && env.fileOpens
    requires WellFormedRequest(Send(s, rc, subject, message)) && IsValidName(s) && IsValidName(rc) && rc != ""
    requires forall i :: 0 <= i < |Lines(message)| ==> Lines(message)[i] != "."
    requires MailboxDir(spool, rc) in dirs || env.mkdirSucceeds
    requires MessageFileName(s, env.timestamp) !in ListedNames(dirs, MailboxDir(spool, rc))
    requires |ListedNames(dirs, MailboxDir(spool, rc))| < IntMax
    ensures var frame := Frame(Send(s, rc, subject, message));
            var o := SendOutcome(dirs, spool, frame, env);
            var n := Slot(env.slot, |ListedNames(dirs, MailboxDir(spool, rc))|) + 1;
            var read := Frame(Read(rc, NatToString(n)));
            o.reply == OkReply
            && Ordinal(read) == Some(n)
            && ReadReply(o.dirs, spool, read) == "OK\n" + SendMessageText(frame) + "\n"
  {
    var frame := Frame(Send(s, rc, subject, message));
    var dir := MailboxDir(spool, rc);
    var p := Slot(env.slot, |ListedNames(dirs, dir)|);
    SendFrameReply(dirs, spool, s, rc, subject, message, env);
    var o := SendOutcome(dirs, spool, frame, env);
    SendOfFrame(s, rc, subject, message);
    ValidNameIsPlain(s);
    ValidNameIsPlain(rc);
    SendDelivers(dirs, spool, frame, env);
    var name := MessageFileName(s, env.timestamp);
    assert ListedNames(o.dirs, dir) == Inserted(ListedNames(dirs, dir), p, name);
    ReadFrameOfListed(o.dirs, spool, rc, p, name, SendMessageText(frame));
  }

  /** READ of the number a mailbox lists a file under, sent as the client frames it, returns that file in full. */
  lemma ReadFrameOfListed(dirs: Dirs, spool: string, rc: string, k: nat, name: string, text: string)
    requires '\n' !in rc && text != ""
    requires var files := ListedNames(dirs, MailboxDir(spool, rc));
             k < |files| && files[k] == name && |files| <= IntMax
    requires ReadFile(dirs, MailboxDir(spool, rc) + "/" + name) == text
    ensures var read := Frame(Read(rc, NatToString(k + 1)));
            Ordinal(read) == Some(k + 1) && ReadReply(dirs, spool, read) == "OK\n" + text + "\n"
  {
    StoiOfNatToString(k + 1);
    assert '\n' !in NatToString(k + 1);
    ReadOfFrame(dirs, spool, rc, NatToString(k + 1));
  }

  /** After a SEND, a LIST of the receiver's mailbox shows the new subject at the new file's slot among the old ones. */
  lemma SendThenList(dirs: Dirs, spool: string, s: string, rc: string, subject: string, message: string, env: Env)
    requires WellFormed(dirs) && env.fileOpens
    requires WellFormedRequest(Send(s, rc, subject, message)) && IsValidName(s) && IsValidName(rc) && rc != ""
    requires forall i :: 0 <= i < |Lines(message)| ==> Lines(message)[i] != "."
    requires MailboxDir(spool, rc) in dirs || env.mkdirSucceeds
    requires MessageFileName(s, env.timestamp) !in ListedNames(dirs, MailboxDir(spool, rc))
    ensures var o := SendOutcome(dirs, spool, Frame(Send(s, rc, subject, message)), env);
            var before := Subjects(dirs, MailboxDir(spool, rc));
            Lines(ListReply(o.dirs, spool, Frame(List(rc))))
            == [ListHeader(rc, |before| + 1)] + Numbered(Inserted(before, Slot(env.slot, |before|), subject))
  {
    var frame := Frame(Send(s, rc, subject, message));
    var dir := MailboxDir(spool, rc);
    SendFrameReply(dirs, spool, s, rc, subject, message, env);
    var o := SendOutcome(dirs, spool, frame, env);
    SendOfFrame(s, rc, subject, message);
    ValidNameIsPlain(s);
    SendDelivers(dirs, spool, frame, env);
    ListOfFrame(o.dirs, spool, rc);
    LinesOfFrame(List(rc));
    ListReplyLines(o.dirs, spool, Frame(List(rc)));
    SubjectsOfDir(o.dirs, dir);
    if dir in dirs {
      SubjectsOfDir(dirs, dir);
    }
  }
}
