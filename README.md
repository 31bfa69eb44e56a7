# TW-Mailer (twmailer-rafaela-cpp) in Dafny

This project models the TW-Mailer client and server: a line-based mail protocol over a TCP stream. The client reads a command and its fields from the console, frames them as one newline-separated request and waits for one reply line. The server unescapes the literal two-character sequence `\n` in what it receives. It then dispatches on the first line: `SEND`, `LIST`, `READ`, `DEL` or `QUIT`. Each user's mailbox is a directory under the mail spool directory, and each message is one file in it.

The modules follow the program's structure:

- `CppText`: the C++ library behaviour the code relies on. This covers `std::getline` on a string stream (`GetLine`, `Lines`), `std::istringstream >>` tokens, `std::stoi` with its out-of-range failure, `std::to_string`, and reading a C string up to its NUL.
- `Files`: the mail spool as a value (directory path to the ordered sequence of file entries, in directory-enumeration order), with the effects of `mkdir`, `std::ofstream`, `std::remove` and `std::ifstream`. It also has a `FileSystem` class holding that state, whose methods change it.
- `MailStore`: what each server command does to the spool and what it replies, as functions of the command text and the spool. Lemmas about them cover the three SEND replies, a delivered message being listed with its subject at the place the filesystem's enumeration gives it, READ agreeing with the LIST numbering, DEL removing exactly the n-th listed file, and every reply ending with a newline.
- `MailServer`: the `Server` class. It has the spool directory, the file system, the `message` member a SEND fills, one member per modelled server member function (methods for those that change state or loop, a predicate and functions for `directoryExists`, `generateMessageFilename` and `readFileContent`), each proved against the `MailStore` functions, plus the helper methods `AppendBody`, `ReadListed` and `DeleteListed`, which split out parts of a member's body. The socket members are not modelled.
- `MailClient`: the client's name and command validation, its console prompting loops, the request frame it sends, and its receive loop.
- `Exchange`: client and server together. It shows that a frame the client builds is parsed by the server into the fields the client collected, and that a message sent is read back in full and listed with its subject.

Several things the clock, the kernel and the disk decide are parameters (`Env`, `mkdirSucceeds`, `removeSucceeds`). These are the millisecond timestamp, whether `mkdir`, opening a file for writing or `remove` succeed, and the position in the directory enumeration at which a new message file appears. The console is the sequence of lines `std::getline` would return, together with whether the typed text ends in a newline. The socket is the sequence of `recv` results.

The code behaves as follows, and the model follows it:

- LIST, READ and DEL number messages in directory-enumeration order; nothing sorts the file names.
- Names are checked only by the client; an empty name passes its check, and LIST, READ and DEL with it act on the spool directory itself.
- The client sends no `.` terminator, so a stored body ends with an extra empty line.
- There is no per-mailbox locking.

## Model

The `MailStore` functions `Unescape`, `ListMailbox`, `ReadReply` and `DelOutcome` each stand for a whole server member function. They carry no contract of their own: the rows of the `Server` methods proved equal to them (`ReplaceBackslashNWithNewline`, `ProcessListCommand`, `ProcessReadCommand`, `ProcessDelCommand`) and of the lemmas about them (`UnescapeLeavesNoEscapes`, `ListReplyLines`, `ReadMatchesList`, `DelRemovesListed` and those beside them) state what they compute. The client's `Frame` likewise has its row as `FrameShape`, with `Exchange.LinesOfFrame` beside it.

| member | source | states |
|---|---|---|
| MailServer.Server.ReplaceBackslashNWithNewline | twmailer-rafaela-cpp/twmailer-server.cpp:140-148 | the in-place rewrite loop yields exactly `Unescape(s)`, every `\n` pair turned into a newline scanning left to right |
| MailStore.UnescapeLeavesNoEscapes | twmailer-rafaela-cpp/twmailer-server.cpp:140-148 | after the rewrite no escape pair remains, because the scan resumes just after the inserted newline |
| MailStore.UnescapeWithoutEscapes | twmailer-rafaela-cpp/twmailer-server.cpp:143-144 | a string without an escape pair is returned unchanged |
| MailStore.UnescapeIdempotent | twmailer-rafaela-cpp/twmailer-server.cpp:140-148 | unescaping twice is the same as unescaping once |
| MailStore.UnescapeSplits | twmailer-rafaela-cpp/twmailer-server.cpp:143-146 | each escape pair becomes one newline and the text on either side of it is unescaped independently |
| MailStore.Dispatch | twmailer-rafaela-cpp/twmailer-server.cpp:151-175 | only SEND and DEL change the spool; no reply is sent exactly when the first line is not SEND, LIST, READ or DEL (QUIT or an unknown command) |
| MailServer.Server.ProcessCommand | twmailer-rafaela-cpp/twmailer-server.cpp:151-175 | the connection continues unless the first line is `QUIT`; reply and new spool are those `Dispatch` gives; after SEND the `message` member holds the stored text, and every other command leaves it as it was |
| MailStore.RepliesEndWithNewline | twmailer-rafaela-cpp/twmailer-server.cpp:151-175 | every non-empty reply the server sends ends with a newline, so the client's receive loop terminates on it |
| MailStore.DotIndex | twmailer-rafaela-cpp/twmailer-server.cpp:193-195 | the body loop stops at the first line equal to `.`, or at the end of the stream when there is none |
| MailServer.Server.AppendBody | twmailer-rafaela-cpp/twmailer-server.cpp:193-195 | the loop appends the body lines before the `.` line, each with its newline, and stops at `DotIndex` |
| MailStore.HeaderJoined | twmailer-rafaela-cpp/twmailer-server.cpp:192 | the stored header is the four labelled lines Sender, Receiver, Subject, Message, then an empty line |
| MailStore.StoredTextLines | twmailer-rafaela-cpp/twmailer-server.cpp:192-195 | reading the stored message back line by line gives the header lines followed by the remaining body lines |
| MailServer.Server.ProcessSendCommand | twmailer-rafaela-cpp/twmailer-server.cpp:177-228 | the `message` member, the reply and the new spool are those of `SendOutcome`; success is reported exactly when the reply is `OK` |
| MailStore.SendOutcome | twmailer-rafaela-cpp/twmailer-server.cpp:177-228 | processSendCommand answers only `ERR Invalid message format`, `ERR` or `OK` |
| MailStore.SendReplies | twmailer-rafaela-cpp/twmailer-server.cpp:197-221 | the reply is `ERR Invalid message format` iff content follows the `.` line, `ERR` iff the receiver is empty or its directory cannot be made, `OK` otherwise; a non-OK reply leaves the spool unchanged |
| MailStore.SendOkEvenIfUnsaved | twmailer-rafaela-cpp/twmailer-server.cpp:223-227 | when the message file cannot be opened the reply is still `OK` and nothing is stored |
| MailStore.SendWrites | twmailer-rafaela-cpp/twmailer-server.cpp:223-224 | an OK SEND writes the stored text to the path built from receiver directory, sender and timestamp |
| MailStore.DeliverInto | twmailer-rafaela-cpp/twmailer-server.cpp:211-224 | writing a new file into a (possibly new) mailbox inserts its name and subject into the listing at the enumeration slot the filesystem chooses, the other entries keeping their order; an existing name keeps the listing; other mailboxes are unchanged |
| MailStore.SendDelivers | twmailer-rafaela-cpp/twmailer-server.cpp:212-227 | after an OK SEND that is saved, the receiver's mailbox exists, reading the new file gives the stored text, and the listing gains the new name with the subject line sent at the slot the filesystem chooses |
| MailServer.Server.constructor | twmailer-rafaela-cpp/twmailer-server.cpp:7-15 | construction creates the spool directory as `CreateDirectory` describes |
| MailServer.Server.CreateDirectory | twmailer-rafaela-cpp/twmailer-server.cpp:233-255 | an existing directory counts as success; otherwise `mkdir` is tried and the result and new spool are those `MailStore.CreateDirectory` gives |
| MailServer.Server.GenerateMessageFilename | twmailer-rafaela-cpp/twmailer-server.cpp:262-269 | for a sender without `/` the path is the mailbox directory joined with `<sender>_msg_<timestamp>.txt` |
| MailStore.MessageFileNameIsPlain | twmailer-rafaela-cpp/twmailer-server.cpp:267 | a message file name has no `/` when the sender has none |
| MailStore.MessagePathSplits | twmailer-rafaela-cpp/twmailer-server.cpp:262-269 | splitting a message path at its last `/` gives back the mailbox directory and the file name |
| MailStore.MessagePathsDistinct | twmailer-rafaela-cpp/twmailer-server.cpp:267 | two different timestamps give two different paths for the same sender |
| MailServer.Server.SaveMessage | twmailer-rafaela-cpp/twmailer-server.cpp:272-280 | the spool after saving is `WriteFile` of the message, a no-op when the file does not open |
| MailServer.Server.ProcessListCommand | twmailer-rafaela-cpp/twmailer-server.cpp:283-319 | the reply is `ListReply`: `ERR User has no inbox` for a missing mailbox, else the count line and the numbered subjects; the empty name lists the spool directory itself |
| MailStore.MailboxDir | twmailer-rafaela-cpp/twmailer-server.cpp:291-292 | a user's mailbox is the spool path, `/` and the name; for the empty name that path is the spool directory itself |
| MailStore.EmptyNameListsSpool | twmailer-rafaela-cpp/twmailer-server.cpp:291-304 | LIST with the empty name finds the spool directory, which holds no regular files of its own, and answers `0 Mails found in Inbox of ` |
| MailStore.ListReplyLines | twmailer-rafaela-cpp/twmailer-server.cpp:283-319 | for an existing mailbox the reply's lines are the header with the file count, then `<i>. <subject>` for each file in listing order |
| MailStore.ListResponseLines | twmailer-rafaela-cpp/twmailer-server.cpp:304-315 | the built response splits back into exactly its header line and numbered lines |
| MailServer.Server.DirectoryExists | twmailer-rafaela-cpp/twmailer-server.cpp:257-260 | a path exists as a directory iff the spool model has a directory under exactly that path |
| MailServer.Server.ReadFileContent | twmailer-rafaela-cpp/twmailer-server.cpp:387-391 | the whole content of the named file in its directory, or "" when the directory or the file is missing and the stream does not open |
| MailServer.Server.ListFilesInDirectory | twmailer-rafaela-cpp/twmailer-server.cpp:322-336 | the names returned are those of the directory's files in enumeration order, none for a missing directory |
| MailServer.Server.ExtractSubjectFromMessage | twmailer-rafaela-cpp/twmailer-server.cpp:339-353 | the subject is the rest of the first line starting with `Subject: ` in the file, empty if there is none |
| MailStore.SubjectOfStoredText | twmailer-rafaela-cpp/twmailer-server.cpp:339-353 | the subject extracted from a stored message is the subject it was stored with, when that has no newline |
| MailStore.SubjectOfSent | twmailer-rafaela-cpp/twmailer-server.cpp:345-349 | the subject listed for a sent message is the subject line of the SEND command |
| MailStore.FirstSubjectIsPartOfALine | twmailer-rafaela-cpp/twmailer-server.cpp:345-349 | an extracted subject is empty or the rest, after `Subject: `, of a line of the file that starts with it, and it holds no newline |
| MailServer.Server.ProcessReadCommand | twmailer-rafaela-cpp/twmailer-server.cpp:356-384 | the reply is `ReadReply` for the numbered message of the user's mailbox |
| MailServer.Server.ReadListed | twmailer-rafaela-cpp/twmailer-server.cpp:362-383 | the reply is `ReadMessage` of the mailbox: `ERR` for a number outside the listing or an empty file, else the listed file framed by `OK` and a newline |
| MailStore.ReadMatchesList | twmailer-rafaela-cpp/twmailer-server.cpp:364-383 | a number outside 1..count, or an empty file, gives `ERR`; otherwise the reply is `OK`, the n-th listed file's content and a newline, and that file is the one LIST numbers n |
| MailServer.Server.ProcessDelCommand | twmailer-rafaela-cpp/twmailer-server.cpp:394-419 | reply and new spool are those of `DelOutcome` |
| MailServer.Server.DeleteListed | twmailer-rafaela-cpp/twmailer-server.cpp:403-418 | after parsing, the reply and new spool are those of `DelMessage` for the mailbox and number given |
| MailStore.DelRemovesListed | twmailer-rafaela-cpp/twmailer-server.cpp:402-418 | an out-of-range number or a failing `remove` gives `ERR` with the spool unchanged; otherwise `OK`, the n-th listed name and subject leave the listing, the others keep their relative order, and other mailboxes are unchanged |
| MailStore.RemoveFromDir | twmailer-rafaela-cpp/twmailer-server.cpp:412-413 | removing the i-th file of a mailbox removes exactly that name and subject from its listing |
| Files.PutSpec | twmailer-rafaela-cpp/twmailer-server.cpp:273-276 | writing a file makes its content the text written; a rewritten file keeps its place and the others theirs, a new one is inserted at the slot the filesystem chooses |
| Files.WithoutAt | twmailer-rafaela-cpp/twmailer-server.cpp:413 | removing a file drops exactly that entry and keeps the order of the rest |
| Files.FileSystem.Mkdir | twmailer-rafaela-cpp/twmailer-server.cpp:243 | `mkdir` adds an empty directory when the path is new and the call succeeds, and changes nothing otherwise |
| Files.FileSystem.Write | twmailer-rafaela-cpp/twmailer-server.cpp:273-276 | the new state is `WriteFile` of the old one |
| Files.FileSystem.Remove | twmailer-rafaela-cpp/twmailer-server.cpp:413 | success is reported exactly when the file existed and removal succeeded, and the new state is `RemoveFile` of the old one |
| CppText.LinesOfJoin | twmailer-rafaela-cpp/twmailer-server.cpp:186-189 | `getline` on newline-joined lines returns those lines |
| CppText.StoiOfNatToString | twmailer-rafaela-cpp/twmailer-server.cpp:362 | `stoi` of a written non-negative number within `int` range gives the number back |
| CppText.SingleTokenIsStripped | twmailer-rafaela-cpp/twmailer-client.cpp:279-282 | a line of exactly one whitespace-separated token is that token with surrounding whitespace stripped |
| MailClient.IsValidName | twmailer-rafaela-cpp/twmailer-client.cpp:253-270 | a name is valid iff it has at most 8 characters, all lowercase letters or digits |
| MailClient.AllNameChars | twmailer-rafaela-cpp/twmailer-client.cpp:261-268 | the character loop accepts iff every character is a lowercase letter or digit |
| MailClient.ValidNameIsPlain | twmailer-rafaela-cpp/twmailer-client.cpp:253-270 | a valid name contains no `/`, backslash, `.` or whitespace, so it names one directory and cannot form an escape pair |
| MailClient.IsValidCommandIsStrippedName | twmailer-rafaela-cpp/twmailer-client.cpp:273-306 | a command line is valid iff its stripped text is one of SEND, LIST, READ, DEL, QUIT |
| MailClient.CommandLine | twmailer-rafaela-cpp/twmailer-client.cpp:77-84 | the command is the console buffer cut at its first carriage return, newline or NUL |
| MailClient.IsValidCommand | twmailer-rafaela-cpp/twmailer-client.cpp:273-306 | a line is valid iff, stripped of white space at both ends, it is SEND, LIST, READ, DEL or QUIT |
| MailClient.PaddedCommandIsNotSent | twmailer-rafaela-cpp/twmailer-client.cpp:85-91 | the line `LIST ` passes the validity check but matches no branch of the raw comparison |
| MailClient.RequestedName | twmailer-rafaela-cpp/twmailer-client.cpp:85-91 | a command is dispatched iff it is valid, under its stripped name |
| MailClient.RequestedNameAgrees | twmailer-rafaela-cpp/twmailer-client.cpp:91-221 | on a line without padding the corrected dispatch agrees with the raw comparison |
| MailClient.HandleCommand | twmailer-rafaela-cpp/twmailer-client.cpp:84-230 | follows the corrected dispatch of "## Findings" (`RequestedName`), not the raw comparisons at client.cpp:91, 146, 168, 194 and 221: prompting starts iff the command is valid; a composed request has the stripped command as its name and carries valid names |
| MailClient.FrameShape | twmailer-rafaela-cpp/twmailer-client.cpp:133 | `Frame`, the request text, starts with the command name; QUIT is the bare name, every other frame follows the name with a newline and ends with one (the frames built at client.cpp:133, 159, 185, 212 and 224) |
| MailClient.FirstValid | twmailer-rafaela-cpp/twmailer-client.cpp:97-113 | the prompt loop consumes lines up to and including the first valid name |
| MailClient.PromptName | twmailer-rafaela-cpp/twmailer-client.cpp:97-102 | returns the first valid name on the console and the lines after it; when only invalid names remain it returns "" if the last line ended in a newline, and hangs if it did not |
| MailClient.NameAtEndOfInput | twmailer-rafaela-cpp/twmailer-client.cpp:97-102 | after invalid names only, a re-prompt at the end of input yields the empty name following a newline-terminated last line, and loops for ever following an unterminated one |
| MailClient.CollectBody | twmailer-rafaela-cpp/twmailer-client.cpp:123-130 | the message is the lines before the first `.`, each with a newline; the loop hangs iff there is no `.` line |
| MailClient.ComposeRequest | twmailer-rafaela-cpp/twmailer-client.cpp:90-230 | each command prompts for its fields in order, names are the first valid ones entered (or "" at the end of input after a newline), and the request carries exactly what was read; it is `Stuck` exactly when a name prompt or the body loop would spin |
| MailClient.ReadResponse | twmailer-rafaela-cpp/twmailer-client.cpp:232-247 | the loop ends with the gathered text after the first chunk that brings a newline, or reports a closed socket, or waits when neither happened |
| CppText.NextNewlineFinds | twmailer-rafaela-cpp/twmailer-client.cpp:243 | searching for a newline succeeds exactly when the text holds one |
| MailClient.GatheredStep | twmailer-rafaela-cpp/twmailer-client.cpp:241-242 | each chunk appended is the received bytes up to their first NUL |
| Exchange.LinesOfFrame | twmailer-rafaela-cpp/twmailer-client.cpp:133 | the server's line reader splits each client frame back into the command name and fields the client collected |
| Exchange.CommandOfFrame | twmailer-rafaela-cpp/twmailer-server.cpp:151-175 | the server dispatches a frame under the client's command name, stops only for QUIT, and handles READ/DEL when the number parses |
| Exchange.ListOfFrame | twmailer-rafaela-cpp/twmailer-client.cpp:159 | a LIST frame is answered with the listing of the named user's mailbox |
| Exchange.ReadOfFrame | twmailer-rafaela-cpp/twmailer-client.cpp:185 | a READ frame is answered for the user and number the client entered |
| Exchange.DelOfFrame | twmailer-rafaela-cpp/twmailer-client.cpp:212 | a DEL frame deletes for the user and number the client entered |
| Exchange.SendOfFrame | twmailer-rafaela-cpp/twmailer-client.cpp:133 | the server reads sender, receiver, subject and body of a SEND frame as the client collected them, with nothing after the body |
| Exchange.SendFrameReply | twmailer-rafaela-cpp/twmailer-server.cpp:203-209 | a client SEND is answered `OK` iff the receiver is non-empty and its mailbox exists or can be made |
| Exchange.SendThenRead | twmailer-rafaela-cpp/twmailer-server.cpp:356-384 | after a saved SEND, READ of the number the new file is listed under (its enumeration slot plus one) returns the stored message in full |
| Exchange.ReadFrameOfListed | twmailer-rafaela-cpp/twmailer-server.cpp:356-384 | a READ frame for number k+1 of a mailbox parses to that number and returns the k-th listed file's text in full |
| Exchange.SendThenList | twmailer-rafaela-cpp/twmailer-server.cpp:283-319 | after a saved SEND, LIST shows the previous subjects in their order with the subject sent inserted at the new file's enumeration slot |

## Left out

- Sockets, the accept loop, `bind`/`listen`/`connect`, the welcome messages, `main` and argument parsing: the model starts from the received command text and ends at the reply text.
- `receiveCommand` reads one `recv` of at most 1023 bytes. The model takes the received command as given, so a request split across reads, or a longer one truncated, is not modelled.
- Console output, `perror` and logging are left out, because they do not change state or replies.
- The millisecond clock is the `timestamp` field of `Env`; `mkdir`, opening for writing and `remove` succeeding are boolean parameters, and the enumeration slot of a new file is the `slot` field.
- MailServer.Server.ReadFileContent: opening an existing file for reading always succeeds in the model; there is no parameter for it. The source's `ERR` reply on a read failure ("File reading error", twmailer-server.cpp:381-383) and the empty subject `extractSubjectFromMessage` lists when its stream does not open (twmailer-server.cpp:344) are therefore not modelled for a file that exists. `ReadMatchesList`, `Exchange.SendThenRead` and `Exchange.ReadFrameOfListed` promise `OK` and the content under that assumption.
- MailServer.Server.ProcessReadCommand: requires the number to parse with `std::stoi`. The source throws an uncaught exception on a non-numeric or out-of-range number, which ends the server; the model does not model the crash.
- MailServer.Server.ProcessDelCommand: requires the number to parse with `std::stoi`, for the same reason.
- MailServer.Server.ProcessCommand: requires `Processable`, the same `std::stoi` condition for READ and DEL.
- The `ERR User has no inbox` reply is sent with a length of 24 bytes, although the literal, newline included, has 22. The model sends the 22 bytes; the terminating NUL and the byte read past it are not modelled.
- MailServer.Server.ProcessListCommand: the name is appended to the spool path without being resolved. A client other than this one could send `.`, `..`, a name holding `/` or a trailing `/`, and so reach the spool itself, its parent or a nested directory. The model keys directories by path text and resolves only the empty name, which this client sends, to the spool. ProcessReadCommand and ProcessDelCommand build the same path, and so does ProcessSendCommand for the receiver's directory (twmailer-server.cpp:202): a raw receiver `.` writes into the spool itself in the source, while the model makes a new directory keyed `spool/.`.
- The directory test reads the `S_IFDIR` bit of `st_mode`; the model treats it as "is a directory".
- The `DT_REG` filter of the listing is implicit: a mailbox holds only files in the model.
- The constructor's `exit` when the spool directory cannot be created is not modelled; the server is then constructed over the unchanged spool instead.
- Directory enumeration order is left to the filesystem: a new file appears at a slot the environment chooses, a rewritten file keeps its place, and removing a file keeps the others' relative order. A filesystem that reorders the remaining entries between two `readdir` passes is not modelled.
- The client's `fgets` limit of 1023 characters and the `continue` on `fgets` failure are not modelled: the command line is the line given.
- A prompt loop that spins for ever at the end of the console input is modelled as a `hangs` result or `Stuck`, not as a loop. That happens for a name re-prompt whose invalid last line had no newline, and for a message body without a `.` line.
- The client prints the reply; the model returns the gathered text.
- Exchange lemmas assume the server receives the client's frame whole, and that the frame contains no backslash followed by `n`.
- MailServer.Server.ReplaceBackslashNWithNewline: returns the rewritten string instead of updating its argument in place.

## Findings

| source | as written | input that shows it | evidently intended | confidence | as-written member | corrected member |
|---|---|---|---|---|---|---|
| twmailer-rafaela-cpp/twmailer-client.cpp:85-91 | `isValidCommand` accepts a line whose only token is a command name, padding included, but dispatch compares the raw line with `"SEND"`, `"LIST"`, ...; a padded line matches no branch, nothing is sent, and the client then blocks in `recv` waiting for a reply | the console line `LIST ` | dispatch on the validated command word | high, not executed | MailClient.PaddedCommandIsNotSent | MailClient.RequestedName |
