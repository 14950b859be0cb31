# An Seo chat: a Dafny model of the server protocol and the client's string logic

"An Seo" is a small line-based chat system. `chat_server.py` is a Twisted
server: each TCP connection gets a `ChatProtocol` session, and all sessions
share the `ChatFactory`'s `users` dictionary from display name to session.
A new session is greeted. Its first line is taken as a proposed name, which
is refused if taken or acknowledged with `OK<` and announced to the others.
Every later line is relayed to every other registered session. When a
registered session's connection is lost, its entry is deleted and its
departure is announced. `chat.py` is a Jython/Swing client. The model covers
its string logic: it takes each server line out of its `>>>` ... `<<<`
frame, checks the reply to the proposed name, strips the text it sends, and
keeps a `no_users` list of the users it believes are online.

The project has four modules:

- `PyStrings` (`pystrings.dfy`): the Python 2 behaviour the code relies on.
  - `str.split(sep)` with a non-empty separator, and `sep.join`.
  - `str.strip()`.
  - `list.index` and `list.remove`.
  - Two-way unpacking `a, b = s.split(sep)` succeeds only when the split
    yields exactly two pieces; any other count raises `ValueError`.
- `ChatServer` (`chat_server.dfy`): the server.
  - Its three classes: `ChatFactory`, `ChatProtocol`, and the `Transport`
    that `sendLine` writes to.
  - A registry invariant over the open sessions. Every callback keeps it.
- `ChatClient` (`chat_client.dfy`): the client.
  - The pure rules as functions.
  - The `no_users` list and the display pane as a `ChatClient` class.
- `EndToEnd` (`end_to_end.dfy`): runs each server line through the client's
  functions. A line reaches the client as the chunk `read_until` returns.

Each Twisted callback is one method, because the reactor runs one callback
at a time to completion. `sendLine` appends a line to the session's
transport (`Transport.sent`). So a contract states, for every open session,
exactly which lines it was sent.

`handle_Register` broadcasts the join line before it inserts the name
(chat_server.py:68-72). The newcomer receives nothing either way, because it
is not yet registered and is `self`. `connectionLost` has no guard against
being run twice (see "## Left out").

## Model

The server's three line formats, `ChatServer.JoinLine`, `ChatServer.ChatLine` and `ChatServer.DepartureLine` (chat_server.py:68, 81, 39), are plain definitions with no contract of their own. So is the client's echo `ChatClient.Echo` (chat.py:326). The lemmas below state what the client makes of them.

| member | source | states |
|---|---|---|
| PyStrings.Find | chat.py:304 | The separator search, with `None` for Python's `-1`. A found position leaves room for the separator. |
| PyStrings.Split | chat.py:304-305 | `str.split(sep)` always yields at least one piece. |
| PyStrings.FindSpec | chat.py:304 | The separator search finds the leftmost occurrence, and finds nothing exactly when the separator does not occur. |
| PyStrings.SplitSpec | chat.py:304-305 | Joining the pieces of `split(sep)` with `sep` gives the string back, and no piece contains `sep`. |
| PyStrings.SplitFirst | chat.py:304 | At the leftmost occurrence, the split is the separator-free text before it, followed by the split of the text after it. |
| PyStrings.SplitPair | chat.py:159 | `a, b = s.split(sep)` succeeds exactly when `s == a + sep + b`, the leftmost `sep` is at `|a|`, and `b` holds no `sep`. Then it yields those two sides. |
| PyStrings.SplitClean | chat.py:370 | `a + sep + b` splits into exactly `[a, b]` when neither `a` nor `b` holds a distinguishing character of `sep`. |
| PyStrings.Strip | chat.py:324 | `strip()` leaves neither a leading nor a trailing whitespace character. |
| PyStrings.StripSpec | chat.py:324 | The result of `strip()` is the slice of the input between a whitespace-only prefix and a whitespace-only suffix. |
| PyStrings.StripPadded | chat.py:375 | Stripping whitespace padding from an unpadded text gives that text back. |
| PyStrings.RemoveFirst | chat.py:381 | `list.remove(x)` on a list holding `x` yields a list one element shorter. Its contents are given by `RemoveFirstAt`. |
| PyStrings.IndexOf | chat.py:381 | `list.index` is the position of the first occurrence. |
| PyStrings.RemoveFirstAt | chat.py:381 | After `list.remove(x)`, the elements before the first `x` stay in place and the later ones move down by one. |
| PyStrings.RemoveFirstNoDup | chat.py:381 | On a duplicate-free list, `remove(x)` deletes exactly `x`: membership is kept for every other element, and the list stays duplicate-free. |
| PyStrings.RemoveFirstSubset | chat.py:381 | `remove` never adds an element. |
| ChatServer.ChatFactory.constructor | chat_server.py:100-103 | The factory starts with an empty `users` table, and the registry invariant holds. |
| ChatServer.ChatFactory.BuildProtocol | chat_server.py:106-109 | A fresh session for this factory, with no name and state 'New User'. The table is unchanged and the invariant is kept. |
| ChatServer.ChatProtocol.constructor | chat_server.py:13-20 | A session stores its factory, has no name and is in state 'New User'. |
| ChatServer.ChatProtocol.SendLine | chat_server.py:28 | Sending a line appends exactly that line to the session's own transport. |
| ChatServer.ChatProtocol.ConnectionMade | chat_server.py:23-28 | A session in 'New User' is sent the greeting `>>>    An Seo!    <<<`. Otherwise nothing is sent. |
| ChatServer.ChatProtocol.ConnectionLost | chat_server.py:32-39 | A registered session's entry, and only that one, is deleted from the table. Every session still registered gets one departure line, and the leaving session gets none. An unregistered session changes nothing and sends nothing. |
| ChatServer.ChatProtocol.LineReceived | chat_server.py:43-54 | In 'New User' the line is a proposed name, with the outcomes of `HandleRegister`. In 'CHAT' it is relayed, with the outcome of `HandleChat`. A chatting session never returns to 'New User'. |
| ChatServer.ChatProtocol.HandleRegister | chat_server.py:57-73 | A taken name: only `>>> Username taken! <<<` is sent back, and nothing else changes. A free name: `OK<` is sent back, and every session registered before the call gets the join line exactly once. Then `users` gains exactly `name -> this`, the session holds the name and enters 'CHAT'. No other session's name or state changes. |
| ChatServer.ChatProtocol.Enroll | chat_server.py:70-73 | Recording the free name and entering 'CHAT' keep the registry invariant, and the table gains exactly that one entry. |
| ChatServer.ChatProtocol.HandleChat | chat_server.py:76-82 | `>>>name : message  <<<` reaches every other registered session exactly once. The sender and the unregistered sessions get nothing. |
| ChatServer.ChatProtocol.BroadcastMessage | chat_server.py:85-92 | The loop over `users` sends the message once to every registered session other than `self`. It sends nothing to `self` or to unregistered sessions. |
| ChatServer.RegistryUnnamed | chat_server.py:36-37 | A session without a name appears in no entry, so setting it aside keeps the invariant. |
| ChatServer.RegistryLeave | chat_server.py:36-37 | Deleting a closing session's own entry keeps the invariant over the remaining sessions. |
| ChatServer.RegistryJoin | chat_server.py:70-73 | Adding a chatting session under a free name re-establishes the invariant. |
| ChatServer.NamesUnique | chat_server.py:62-73 | Under the invariant, two open chatting sessions have the same name exactly when they are the same session. |
| ChatServer.RejoinAfterLeave | chat_server.py:32-73 | Once the session holding a name loses its connection, a waiting session can register that name and gets `OK<`. Every other registered session sees the departure line and then the join line. |
| ChatClient.Unframe | chat.py:303-306 | An empty chunk is ignored. Whatever is displayed is a newline, a text containing neither marker, and a newline. |
| ChatClient.UnframeDisplay | chat.py:303-306 | A chunk is displayed as `t` exactly when it is `pre + '>>>' + body + '<<<' + post`, with `>>>` occurring once, `<<<` occurring once after it, and `t == '\n' + body + '\n'`. Any other non-empty chunk is dropped. |
| ChatClient.UnframeClean | chat.py:303-306 | A chunk whose surroundings hold no `>` or `<` and whose body holds neither is displayed with exactly that body. |
| ChatClient.LoginCheck | chat.py:157-160 | The reply raises `ValueError` exactly when it does not hold exactly one `<`. |
| ChatClient.SplitCount | chat.py:159 | Splitting on a one-character separator yields one more piece than the character occurs. |
| ChatClient.LoginAccepted | chat.py:157-160 | A reply is accepted exactly when it is `a + '<' + b`, with no other `<`, and `a.strip() == 'OK'`. |
| ChatClient.LoginReadUntil | chat.py:157-160 | A reply as `read_until('<')` returns it is never an unpacking error: it is accepted when its text strips to `OK`, and refused otherwise. |
| ChatClient.Outgoing | chat.py:320-332 | An empty entry sends nothing. Otherwise the line sent is the entry with its whitespace margins cut, followed by `\r\n`, and that text neither begins nor ends with whitespace. |
| ChatClient.OutgoingBlank | chat.py:322-332 | A non-empty all-whitespace entry is not refused: it goes out as a bare `\r\n`. |
| ChatClient.Counted | chat.py:379-389 | An unlisted name other than `You` is appended. The list stays duplicate-free and without `You`, and gains no other member. |
| ChatClient.UpdateOnline | chat.py:369-392 | As written, a message that does not unpack into exactly two parts on ` : ` leaves the list unchanged. One that does can add only its stripped sender. |
| ChatClient.UpdateOnlineNeverRemoves | chat.py:369-392 | As written, for a message ending in a newline (every message `appendText` receives), the list changes only when the message unpacks into two parts on ` : `. Then the stripped sender is counted. Nobody is ever removed. |
| ChatClient.UpdateOnlineValid | chat.py:369-392 | The as-written bookkeeping keeps the list duplicate-free and without `You`. |
| ChatClient.DepartedName | chat.py:380 | A recognised departure notice strips to `User <name> amach sa teach !`, with the name it returns. |
| ChatClient.DepartedNameOf | chat.py:380 | Every message that strips to such a notice is recognised, with its name. |
| ChatClient.UpdateOnlineFixed | chat.py:364-392 | In the corrected bookkeeping, a message that does not unpack into exactly two parts adds no one. |
| ChatClient.UpdateOnlineFixedValid | chat.py:364-392 | The corrected bookkeeping keeps the list duplicate-free and without `You`. |
| ChatClient.DepartureRemoves | chat.py:379-382 | In the corrected bookkeeping, the departure notice of a listed user removes exactly that user, provided the notice holds no ` : ` (so the name holds none either). |
| ChatClient.EchoNotCounted | chat.py:326 | The client's own echo `You : ...` never changes the list, in either version of the bookkeeping. |
| ChatClient.ChatClient.constructor | chat.py:176-192 | The client starts with an empty list and then shows the greeting between newlines. The list is the as-written bookkeeping applied to that greeting. |
| ChatClient.ChatClient.AppendText | chat.py:336-392 | The message is appended to the display and nothing is written. `no_users` is updated in place exactly as lines 369-392 do, and stays duplicate-free and without `You`. |
| ChatClient.ChatClient.AppendTextFixed | chat.py:336-392 | The same display step, with `no_users` updated by the corrected bookkeeping: a departure notice removes the departed user in place. |
| ChatClient.ChatClient.ReceiveChunk | chat.py:298-312 | A chunk that unframes is displayed and counted by the as-written bookkeeping. A chunk that is empty or does not unpack changes nothing. |
| ChatClient.ChatClient.GrabText | chat.py:315-332 | An empty entry does nothing. Otherwise `You : <stripped>` is displayed, the stripped entry and `\r\n` are written, and the list is unchanged. |
| EndToEnd.AcceptedReply | chat_server.py:66 | The server's acknowledgement, read after the greeting as `\r\nOK<`, is accepted by the client. |
| EndToEnd.RefusedReply | chat_server.py:63 | The server's refusal, cut at its first `<`, is refused by the client rather than raising. |
| EndToEnd.GreetingNotCounted | chat.py:289 | The server greeting that the client first shows counts nobody, in either version of the bookkeeping. |
| EndToEnd.JoinShown | chat_server.py:68 | The join line reaches the display as `\n   User <name> AnSeo !   \n`, for any name with no `<`, `>`, NUL, `\x11` or `\xff`. |
| EndToEnd.ChatShown | chat_server.py:81 | A relayed chat line reaches the display as `\n<name> : <message>  \n`, for any name and message with no `<`, `>`, NUL, `\x11` or `\xff` (colons included). |
| EndToEnd.DepartureShown | chat_server.py:39 | The departure line reaches the display as `\n   User <name> amach sa teach !  \n`, for any name with no `<`, `>`, NUL, `\x11` or `\xff`. |
| EndToEnd.ChatCounted | chat.py:369-389 | A displayed chat line counts its sender, in both versions of the bookkeeping. The sender's name must be unpadded and free of `:`, and the message must hold no further ` : `; a lone `:`, as in `re: lunch`, is allowed. |
| EndToEnd.DepartureCounted | chat.py:379-382 | For a displayed departure of a listed user whose name has no `:`, the as-written bookkeeping keeps the user listed. The corrected one removes exactly that user. |

## Left out

- `reactor.listenTCP` / `reactor.run` (chat_server.py:112-117): process start-up and socket I/O.
- Twisted's `LineReceiver` line buffering: the model deals in whole lines.
  - A server line is a string.
  - `EndToEnd.Chunk` puts back the `\r\n` that ends the previous line, because each `read_until` chunk starts with it.
- `transport` is created together with its session. In Twisted it is attached after `buildProtocol`, when the connection is made.
- The callbacks require the session to be open (`this in factory.Live`): Twisted calls `connectionLost` once per connection, and `lineReceived` only before it.
  - The source has no guard against a second `connectionLost`.
  - A second call after another session took the same name would delete that other session's entry. The model does not let it happen.
- `ChatServer.ChatProtocol.BroadcastMessage`: it states each transport's contents, not the order in which the dictionary is walked. No session can observe that order, since each gets one line.
- The `print` calls in both files, and `connectionLost`'s `reason` argument.
- The client's connection set-up in `continueEvent` (chat.py:137-155) is I/O, and so are its dialogs. This covers the telnet connection, the retry loop, reading the greeting and writing the name.
  - Only the decision on lines 157-160 is modelled.
  - The `strip()` on line 158 discards its result, so it has no effect.
- The receive thread and its `while self.tn` loop (chat.py:187-190, 298-312): `ChatClient.ChatClient.ReceiveChunk` is one pass of it. Not modelled:
  - the bare `except` around a failing `read_until`;
  - the race between that thread and the Swing thread, since both call `appendText`.
- `clientUI` (chat.py:196-287), the label and colour work in `appendText` (chat.py:339-362, 391, 394-400), and its `user` argument, which only picks colours.
- `ChatClient.ChatClient.GrabText` does not model `text.encode()` on line 331: strings are sequences of characters, with no encoding. In Jython the entry text is unicode, and `encode()` with the default ASCII codec raises `UnicodeEncodeError` on non-ASCII text. That happens after the echo (line 326) and the field reset (line 329), so the source then shows the echo but writes nothing. The model always writes the line.
- `EndToEnd.Chunk` takes `"\r\n" + line` to be exactly what `read_until('<<<')` returns (chat.py:301). telnetlib's reader drops NUL and `\x11` bytes, and takes `\xff` (IAC) as the start of a command sequence. So a server line holding those bytes reaches the client changed. The `EndToEnd` display lemmas exclude those bytes through `Unmarked`, and that filtering is not modelled.
- `ChatClient.UpdateOnlineFixed` recognises a departure notice only when it does not unpack on ` : `. So a listed user whose name holds ` : ` is not removed by their own departure notice: the notice then splits in two and is treated as a chat line.
- `PyStrings.Strip`: its whitespace set is the six ASCII whitespace characters of Python 2 `str`, which is what the telnet chunks are. The typed entry (chat.py:320-324) comes from Java's `getText()` and is most likely unicode. The wider whitespace set of unicode text, which includes `\x1c`-`\x1f`, is not modelled.

## Findings

| source | as written | input that shows it | evidently intended | confidence | as-written member | corrected member |
|---|---|---|---|---|---|---|
| chat.py:379-382 | A listed user is removed only when the text after ` : ` equals `User <name> amach sa teach !`. That cannot happen: every message `appendText` receives ends in a newline, and the server's departure line contains no ` : ` unless the name does. | Listed user `alice` leaves: `appendText` receives `\n   User alice amach sa teach !  \n`. The split on ` : ` yields one piece, so the method returns and `alice` stays listed. | The departed user is taken off the list. The source's own comment on lines 364-365 says decrementing does not work. | high; not executed | ChatClient.UpdateOnlineNeverRemoves | ChatClient.UpdateOnlineFixed |

The as-written behaviour is what `ChatClient.ChatClient.AppendText`
does: `ChatClient.UpdateOnlineNeverRemoves` covers every message it can
receive. `EndToEnd.DepartureCounted` also shows it concretely, by running
the server's departure line through both versions. The corrected
bookkeeping, `ChatClient.UpdateOnlineFixed`, still counts chat senders as
before. It also recognises a departure notice, which has no ` : `, and
removes that user (`ChatClient.DepartureRemoves`).
`ChatClient.ChatClient.AppendTextFixed` is `appendText` with the
correction applied.
