/**
 * The string and list logic of the Swing chat client (chat.py): taking a
 * server line out of its `>>>` ... `<<<` frame, reading the server's reply
 * to a proposed name, turning typed text into the line that is sent, and
 * keeping the list of users shown as online.
 *
 * Each two-way unpacking `a, b = s.split(sep)` of the source succeeds only
 * when the split yields exactly two pieces; any other count raises
 * ValueError, which is the failure branch of each function here.
 */
module ChatClient {
  import opened PyStrings

  /** What one chunk read with `read_until('<<<')` turns into in `recvFunction`. */
  datatype Received =
    | Nothing               // an empty chunk: `if message:` fails
    | Dropped               // an unpacking raised ValueError, swallowed by the bare `except`
    | Display(text: string) // the text handed to `appendText`

  /**
   * `chunk` is `pre + '>>>' + body + '<<<' + post`, where the `>>>` after
   * `pre` is the first and only one, and the `<<<` after `body` is the first
   * and only one in what follows that `>>>`.
   */
  predicate Framed(chunk: string, pre: string, body: string, post: string)
  {
    && chunk == pre + ">>>" + (body + "<<<" + post)
    && Find(chunk, ">>>") == Some(|pre|)
    && !Contains(body + "<<<" + post, ">>>")
    && Find(body + "<<<" + post, "<<<") == Some(|body|)
    && !Contains(post, "<<<")
  }

  /**
   * The body of `recvFunction`'s loop for one chunk: drop everything up to
   * `>>>` and from `<<<` on, and put the rest between two newlines.
   */
  function Unframe(chunk: string): (r: Received)
    ensures r == Nothing <==> chunk == ""
    ensures r.Display? ==> exists body :: r.text == "\n" + body + "\n"
                                          && !Contains(body, ">>>") && !Contains(body, "<<<")
  {
    if chunk == "" then Nothing
    else
      var outer := Split(chunk, ">>>");
      if |outer| != 2 then Dropped
      else
        SplitSpec(chunk, ">>>");
        assert !Contains(outer[1], ">>>");
        var inner := Split(outer[1], "<<<");
        if |inner| != 2 then Dropped
        else
          BodyUnmarked(outer[1], inner[0], inner[1]);
          Display("\n" + inner[0] + "\n")
  }

  /** What lies between the markers of a framed chunk holds neither marker. */
  lemma BodyUnmarked(rest: string, body: string, post: string)
    requires !Contains(rest, ">>>") && Split(rest, "<<<") == [body, post]
    ensures !Contains(body, ">>>") && !Contains(body, "<<<")
  {
    SplitPair(rest, "<<<", body, post);
    SplitFirst(rest, "<<<");
    assert rest == body + ("<<<" + post);
    NotContainsPrefix(body, "<<<" + post, ">>>");
  }

  /** A chunk is displayed exactly when it is framed, and then its body is what is shown. */
  lemma UnframeDisplay(chunk: string, t: string)
    ensures Unframe(chunk) == Display(t) <==>
              exists pre, body, post :: Framed(chunk, pre, body, post) && t == "\n" + body + "\n"
  {
    if Unframe(chunk) == Display(t) {
      var outer := Split(chunk, ">>>");
      var inner := Split(outer[1], "<<<");
      DisplayFramed(chunk, outer[0], outer[1], inner[0], inner[1]);
    }
    if exists pre, body, post :: Framed(chunk, pre, body, post) && t == "\n" + body + "\n" {
      var pre, body, post :| Framed(chunk, pre, body, post) && t == "\n" + body + "\n";
      FramedDisplay(chunk, pre, body, post);
    }
  }

  /** A framed chunk splits as the frame says, so its body is displayed. */
  lemma FramedDisplay(chunk: string, pre: string, body: string, post: string)
    requires Framed(chunk, pre, body, post)
    ensures Split(chunk, ">>>") == [pre, body + "<<<" + post]
    ensures Split(body + "<<<" + post, "<<<") == [body, post]
  {
    SplitPair(chunk, ">>>", pre, body + "<<<" + post);
    SplitPair(body + "<<<" + post, "<<<", body, post);
  }

  /** The two splits of a displayed chunk give the parts of its frame. */
  lemma DisplayFramed(chunk: string, pre: string, rest: string, body: string, post: string)
    requires Split(chunk, ">>>") == [pre, rest] && Split(rest, "<<<") == [body, post]
    ensures Framed(chunk, pre, body, post)
  {
    SplitPair(chunk, ">>>", pre, rest);
    SplitPair(rest, "<<<", body, post);
  }

  /**
   * A chunk whose surroundings hold no `>` and whose body holds neither `>`
   * nor `<` is framed, so its body is displayed.
   */
  lemma UnframeClean(pre: string, body: string, post: string)
    requires '>' !in pre && '>' !in body && '<' !in body && '>' !in post && '<' !in post
    ensures Unframe(pre + ">>>" + body + "<<<" + post) == Display("\n" + body + "\n")
  {
    var rest := body + "<<<" + post;
    assert pre + ">>>" + body + "<<<" + post == pre + ">>>" + rest;
    SplitClean(pre, ">>>", rest, 0);
    SplitClean(body, "<<<", post, 0);
  }

  /** What `continueEvent` makes of the reply read with `read_until('<')`. */
  datatype LoginReply =
    | Accepted   // the part before `<`, stripped, is `OK`
    | Refused    // the dialog 'Bad Username' is shown
    | Unpacking  // the reply does not split into two parts: ValueError escapes the handler

  /**
   * Lines 157-160: split the reply on `<` and compare the stripped first part
   * with `OK`. The `strip()` on line 158 discards its result and is not modelled.
   */
  function LoginCheck(reply: string): (r: LoginReply)
    ensures r == Unpacking <==> CharCount(reply, '<') != 1
  {
    var parts := Split(reply, "<");
    SplitCount(reply, '<');
    if |parts| != 2 then Unpacking
    else if Strip(parts[0]) != "OK" then Refused
    else Accepted
  }

  /** The number of times `c` occurs in `s`. */
  function CharCount(s: string, c: char): nat
  {
    if s == "" then 0 else (if s[0] == c then 1 else 0) + CharCount(s[1..], c)
  }

  /** Splitting on a one-character separator gives one piece more than the character occurs. */
  lemma {:induction false} SplitCount(s: string, c: char)
    ensures |Split(s, [c])| == CharCount(s, c) + 1
    decreases |s|
  {
    FindSpec(s, [c]);
    match Find(s, [c])
    case None =>
      ContainsChar(s, c);
      CharCountAbsent(s, c);
    case Some(i) =>
      SplitCountStep(s, c);
      SplitCount(s[i + 1..], c);
  }

  /** At the first `c`: one more piece and one more occurrence than in the rest. */
  lemma SplitCountStep(s: string, c: char)
    requires Find(s, [c]).Some?
    ensures var rest := s[Find(s, [c]).value + 1..];
            |Split(s, [c])| == 1 + |Split(rest, [c])| && CharCount(s, c) == 1 + CharCount(rest, c)
  {
    SplitFirst(s, [c]);
    FindCharBefore(s, c);
    CharCountAt(s, Find(s, [c]).value, c);
  }

  /** Counting across the first occurrence of `c`, at index `i`. */
  lemma CharCountAt(s: string, i: nat, c: char)
    requires i < |s| && s[i] == c && c !in s[..i]
    ensures CharCount(s, c) == 1 + CharCount(s[i + 1..], c)
  {
    var rest := s[i + 1..];
    assert s == s[..i] + ([c] + rest);
    CharCountSplit(s[..i], [c] + rest, c);
    CharCountAbsent(s[..i], c);
    assert ([c] + rest)[0] == c && ([c] + rest)[1..] == rest;
  }

  /** A character that is absent is counted zero times. */
  lemma {:induction false} CharCountAbsent(s: string, c: char)
    requires c !in s
    ensures CharCount(s, c) == 0
    decreases |s|
  {
    if s != "" {
      assert s[1..] == s[1..] && c !in s[1..];
      CharCountAbsent(s[1..], c);
    }
  }

  /** Counting distributes over concatenation. */
  lemma {:induction false} CharCountSplit(a: string, b: string, c: char)
    ensures CharCount(a + b, c) == CharCount(a, c) + CharCount(b, c)
    decreases |a|
  {
    if a == "" {
      assert a + b == b;
    } else {
      assert (a + b)[1..] == a[1..] + b;
      CharCountSplit(a[1..], b, c);
    }
  }

  /**
   * A reply is accepted exactly when it is `a + '<' + b` with no other `<`
   * and `a` is `OK` once whitespace is stripped.
   */
  lemma LoginAccepted(reply: string)
    ensures LoginCheck(reply) == Accepted <==>
              exists a, b :: reply == a + "<" + b && '<' !in a && '<' !in b && Strip(a) == "OK"
  {
    if LoginCheck(reply) == Accepted {
      var parts := Split(reply, "<");
      LoginAcceptedParts(reply, parts[0], parts[1]);
    }
    if exists a, b :: reply == a + "<" + b && '<' !in a && '<' !in b && Strip(a) == "OK" {
      var a, b :| reply == a + "<" + b && '<' !in a && '<' !in b && Strip(a) == "OK";
      SplitClean(a, "<", b, 0);
    }
  }

  /** The two pieces of a reply split on `<` hold no `<` and put back together give the reply. */
  lemma LoginAcceptedParts(reply: string, a: string, b: string)
    requires Split(reply, "<") == [a, b]
    ensures reply == a + "<" + b && '<' !in a && '<' !in b
  {
    SplitPair(reply, "<", a, b);
    ContainsChar(b, '<');
    FindCharBefore(reply, '<');
    assert reply[..|a|] == a;
  }

  /**
   * What `read_until('<')` returns once it finds the marker: text without
   * `<` followed by it. Such a reply is never an unpacking error.
   */
  lemma LoginReadUntil(a: string)
    requires '<' !in a
    ensures LoginCheck(a + "<") == (if Strip(a) == "OK" then Accepted else Refused)
  {
    assert a + "<" == a + "<" + "";
    SplitClean(a, "<", "", 0);
  }

  /**
   * `grabText`'s outgoing rule: nothing for an empty entry, otherwise the
   * stripped entry and `\r\n` (lines 320-332).
   */
  function Outgoing(text: string): (r: Option<string>)
    ensures r.None? <==> text == ""
    ensures r.Some? ==> |r.value| >= 2 && r.value[|r.value| - 2..] == "\r\n"
    ensures r.Some? ==> var n := |r.value| - 2;
              exists i :: 0 <= i && i + n <= |text| && r.value[..n] == text[i..i + n]
                          && AllSpace(text[..i]) && AllSpace(text[i + n..])
    ensures r.Some? && |r.value| > 2 ==> !IsSpace(r.value[0]) && !IsSpace(r.value[|r.value| - 3])
  {
    if text == "" then None
    else
      StripSpec(text);
      var line := Strip(text) + "\r\n";
      assert line[..|line| - 2] == Strip(text);
      Some(line)
  }

  /** An entry of only whitespace is not refused: it goes out as an empty line. */
  lemma OutgoingBlank(text: string)
    requires text != "" && AllSpace(text)
    ensures Outgoing(text) == Some("\r\n")
  {
    assert text == text + "" + "";
    StripPadded(text, "", "");
  }

  /** The client's echo of its own outgoing text on line 326, labelled `You`. */
  function Echo(text: string): string
  {
    "\nYou : " + Strip(text) + "\n"
  }

  // The text of a departure line once framing is removed and it is stripped.
  const DepartedPrefix: string := "User "
  const DepartedSuffix: string := " amach sa teach !"

  /**
   * `user` joins the list unless it is already there or is the client's own
   * label `You` (lines 379-389).
   */
  function Counted(noUsers: seq<string>, user: string): (r: seq<string>)
    ensures NoDup(noUsers) && "You" !in noUsers ==> NoDup(r) && "You" !in r
    ensures user in r || user == "You"
    ensures forall y :: y in r <==> y in noUsers || (y == user && user != "You")
  {
    if user in noUsers || user == "You" then noUsers
    else
      assert forall i :: 0 <= i < |noUsers| ==> (noUsers + [user])[i] == noUsers[i];
      noUsers + [user]
  }

  /**
   * The `no_users` bookkeeping at the end of `appendText`, as written (lines
   * 369-392): a message that splits on ` : ` into two parts names a user;
   * a listed user is removed when the text is exactly its departure text,
   * and an unlisted one other than `You` is appended.
   */
  function UpdateOnline(noUsers: seq<string>, message: string): (r: seq<string>)
    ensures |Split(message, " : ")| != 2 ==> r == noUsers
    ensures |Split(message, " : ")| == 2 ==>
              forall y :: y in r ==> y in noUsers || y == Strip(Split(message, " : ")[0])
  {
    var parts := Split(message, " : ");
    if |parts| != 2 then noUsers
    else
      var user := Strip(parts[0]);
      if user in noUsers then
        if parts[1] == DepartedPrefix + user + DepartedSuffix then
          RemoveFirstSubset(noUsers, user);
          RemoveFirst(noUsers, user)
        else noUsers
      else if user == "You" then noUsers
      else noUsers + [user]
  }

  /**
   * The removal branch of the as-written bookkeeping never fires for a
   * message ending in a newline: the text after ` : ` then ends in a newline
   * too, while the departure text ends in `!`. Every caller of `appendText`
   * passes such a message, so nobody is ever taken off the list: such a
   * message changes the list only by counting its stripped sender.
   */
  lemma UpdateOnlineNeverRemoves(noUsers: seq<string>, message: string)
    requires message != "" && message[|message| - 1] == '\n'
    ensures UpdateOnline(noUsers, message) ==
              (if |Split(message, " : ")| == 2 then Counted(noUsers, Strip(Split(message, " : ")[0]))
               else noUsers)
  {
    var parts := Split(message, " : ");
    if |parts| == 2 {
      var user := Strip(parts[0]);
      var gone := DepartedPrefix + user + DepartedSuffix;
      SplitSpec(message, " : ");
      assert message == parts[0] + " : " + parts[1];
      assert gone[|gone| - 1] == '!';
      if parts[1] != "" {
        assert parts[1][|parts[1]| - 1] == message[|message| - 1];
      }
      assert parts[1] != gone;
      if user !in noUsers && user != "You" {
        assert user in UpdateOnline(noUsers, message);
      }
    }
  }

  /**
   * The name in a departure notice: `Some(u)` exactly when the stripped
   * message is `User u amach sa teach !`.
   */
  function DepartedName(message: string): (r: Option<string>)
    ensures r.Some? ==> Strip(message) == DepartedPrefix + r.value + DepartedSuffix
  {
    var t := Strip(message);
    if |t| >= |DepartedPrefix| + |DepartedSuffix|
       && t[..|DepartedPrefix|] == DepartedPrefix && t[|t| - |DepartedSuffix|..] == DepartedSuffix
    then
      var u := t[|DepartedPrefix|..|t| - |DepartedSuffix|];
      assert t == t[..|DepartedPrefix|] + u + t[|t| - |DepartedSuffix|..];
      Some(u)
    else None
  }

  /** Every stripped departure notice is recognised, with its name. */
  lemma DepartedNameOf(message: string, u: string)
    requires Strip(message) == DepartedPrefix + u + DepartedSuffix
    ensures DepartedName(message) == Some(u)
  {
    var t := Strip(message);
    assert t[..|DepartedPrefix|] == DepartedPrefix;
    assert t[|t| - |DepartedSuffix|..] == DepartedSuffix;
    assert t[|DepartedPrefix|..|t| - |DepartedSuffix|] == u;
  }

  /**
   * The bookkeeping as the source comment on lines 364-365 says it is meant
   * to work: a chat line counts its sender as before, and a departure notice
   * (which has no ` : `) takes the departed user off the list.
   */
  function UpdateOnlineFixed(noUsers: seq<string>, message: string): (r: seq<string>)
    ensures forall y :: y in r ==> y in noUsers || |Split(message, " : ")| == 2
  {
    var parts := Split(message, " : ");
    if |parts| == 2 then Counted(noUsers, Strip(parts[0]))
    else
      match DepartedName(message)
      case Some(u) =>
        if u in noUsers then
          RemoveFirstSubset(noUsers, u);
          RemoveFirst(noUsers, u)
        else noUsers
      case None => noUsers
  }

  /** The as-written bookkeeping keeps the list free of duplicates and of the label `You`. */
  lemma UpdateOnlineValid(noUsers: seq<string>, message: string)
    requires NoDup(noUsers) && "You" !in noUsers
    ensures NoDup(UpdateOnline(noUsers, message)) && "You" !in UpdateOnline(noUsers, message)
  {
    var parts := Split(message, " : ");
    var r := UpdateOnline(noUsers, message);
    if |parts| == 2 {
      var user := Strip(parts[0]);
      if user !in noUsers {
        assert r == Counted(noUsers, user);
      } else if parts[1] == DepartedPrefix + user + DepartedSuffix {
        RemoveFirstNoDup(noUsers, user);
        assert r == RemoveFirst(noUsers, user);
      } else {
        assert r == noUsers;
      }
    } else {
      assert r == noUsers;
    }
  }

  /** So does the corrected one. */
  lemma UpdateOnlineFixedValid(noUsers: seq<string>, message: string)
    requires NoDup(noUsers) && "You" !in noUsers
    ensures NoDup(UpdateOnlineFixed(noUsers, message)) && "You" !in UpdateOnlineFixed(noUsers, message)
  {
    var parts := Split(message, " : ");
    if |parts| == 2 {
      assert UpdateOnlineFixed(noUsers, message) == Counted(noUsers, Strip(parts[0]));
    } else {
      var d := DepartedName(message);
      if d.Some? && d.value in noUsers {
        RemoveFirstNoDup(noUsers, d.value);
        assert UpdateOnlineFixed(noUsers, message) == RemoveFirst(noUsers, d.value);
      } else {
        assert UpdateOnlineFixed(noUsers, message) == noUsers;
      }
    }
  }

  /**
   * In the corrected bookkeeping a departure notice for a listed user (and
   * no extra ` : `) removes that user and nobody else.
   */
  lemma DepartureRemoves(noUsers: seq<string>, message: string, u: string)
    requires NoDup(noUsers) && "You" !in noUsers && u in noUsers
    requires !Contains(message, " : ") && Strip(message) == DepartedPrefix + u + DepartedSuffix
    ensures UpdateOnlineFixed(noUsers, message) == RemoveFirst(noUsers, u)
    ensures forall y :: y in UpdateOnlineFixed(noUsers, message) <==> y in noUsers && y != u
  {
    FindSpec(message, " : ");
    assert Split(message, " : ") == [message];
    DepartedNameOf(message, u);
    RemoveFirstNoDup(noUsers, u);
  }

  /**
   * The client's own echo never changes the list, in either version: it
   * names `You`, or holds a second ` : ` and does not unpack.
   */
  lemma EchoNotCounted(noUsers: seq<string>, text: string)
    requires "You" !in noUsers
    ensures UpdateOnline(noUsers, Echo(text)) == noUsers
    ensures UpdateOnlineFixed(noUsers, Echo(text)) == noUsers
  {
    var e := Echo(text);
    EchoHead(text);
    var parts := Split(e, " : ");
    if |parts| == 2 {
      assert UpdateOnline(noUsers, e) == noUsers;
      assert UpdateOnlineFixed(noUsers, e) == Counted(noUsers, "You");
    } else {
      assert UpdateOnline(noUsers, e) == noUsers;
      assert DepartedName(e) == None;
      assert UpdateOnlineFixed(noUsers, e) == noUsers;
    }
  }

  /** The echo's first piece names `You`, and stripped it starts with `Y`, not `User `. */
  lemma EchoHead(text: string)
    ensures Strip(Split(Echo(text), " : ")[0]) == "You"
    ensures Strip(Echo(text)) != "" && Strip(Echo(text))[0] == 'Y'
  {
    EchoSplitHead(Strip(text));
    EchoStrip(Strip(text));
  }

  lemma EchoSplitHead(s: string)
    ensures Split("\nYou : " + s + "\n", " : ")[0] == "\nYou"
    ensures Strip("\nYou") == "You"
  {
    assert "\nYou : " + s + "\n" == "\nYou" + " : " + (s + "\n");
    FindAfterClean("\nYou", " : ", s + "\n", 1);
    assert "\nYou" == "\n" + "You" + "";
    StripPadded("\n", "You", "");
  }

  lemma EchoStrip(s: string)
    requires s == "" || !IsSpace(s[|s| - 1])
    ensures Strip("\nYou : " + s + "\n") != "" && Strip("\nYou : " + s + "\n")[0] == 'Y'
  {
    if s == "" {
      assert "\nYou : " + s + "\n" == "\n" + "You :" + " \n";
      StripPadded("\n", "You :", " \n");
    } else {
      assert "\nYou : " + s + "\n" == "\n" + ("You : " + s) + "\n";
      StripPadded("\n", "You : " + s, "\n");
    }
  }

  /**
   * The client side of one connection: the messages put on the display
   * pane in order, the lines written to the server, and `no_users`.
   */
  class ChatClient {
    const username: string
    var noUsers: seq<string>
    var shown: seq<string>
    var written: seq<string>

    /** Nobody is listed twice and the client's own label is never listed. */
    ghost predicate Valid()
      reads this
    {
      NoDup(noUsers) && "You" !in noUsers
    }

    /** `ChatClient.__init__` and the end of `clientUI`: an empty list, then the greeting is shown. */
    constructor (name: string, greeting: string)
      ensures Valid() && username == name && written == []
      ensures shown == ["\n" + greeting + "\n"]
      ensures noUsers == UpdateOnline([], "\n" + greeting + "\n")
    {
      username := name;
      noUsers := [];
      shown := [];
      written := [];
      new;
      AppendText("\n" + greeting + "\n");
    }

    /**
     * `appendText`: show the message, then update `no_users` in place as
     * lines 369-392 do.
     */
    method AppendText(message: string)
      requires Valid()
      modifies this
      ensures Valid()
      ensures shown == old(shown) + [message] && written == old(written)
      ensures noUsers == UpdateOnline(old(noUsers), message)
    {
      ghost var expected := UpdateOnline(noUsers, message);
      UpdateOnlineValid(noUsers, message);
      shown := shown + [message];
      var parts := Split(message, " : ");
      if |parts| != 2 {
        return;
      }
      var user := Strip(parts[0]);
      if user in noUsers {
        if parts[1] == DepartedPrefix + user + DepartedSuffix {
          assert expected == RemoveFirst(noUsers, user);
          noUsers := RemoveFirst(noUsers, user);
        } else {
          assert expected == noUsers;
        }
      } else if user != "You" {
        assert expected == noUsers + [user];
        noUsers := noUsers + [user];
      }
    }

    /**
     * `appendText` with the bookkeeping corrected so that a departure notice
     * takes the departed user off the list.
     */
    method AppendTextFixed(message: string)
      requires Valid()
      modifies this
      ensures Valid()
      ensures shown == old(shown) + [message] && written == old(written)
      ensures noUsers == UpdateOnlineFixed(old(noUsers), message)
    {
      ghost var expected := UpdateOnlineFixed(noUsers, message);
      UpdateOnlineFixedValid(noUsers, message);
      shown := shown + [message];
      var parts := Split(message, " : ");
      if |parts| != 2 {
        var departed := DepartedName(message);
        if departed.Some? && departed.value in noUsers {
          assert expected == RemoveFirst(noUsers, departed.value);
          noUsers := RemoveFirst(noUsers, departed.value);
        } else {
          assert expected == noUsers;
        }
        return;
      }
      var user := Strip(parts[0]);
      assert expected == Counted(noUsers, user);
      if user in noUsers || user == "You" {
        return;
      }
      noUsers := noUsers + [user];
    }

    /** One pass of `recvFunction`'s loop over a chunk read from the server. */
    method ReceiveChunk(chunk: string)
      requires Valid()
      modifies this
      ensures Valid() && written == old(written)
      ensures Unframe(chunk).Display? ==>
                && shown == old(shown) + [Unframe(chunk).text]
                && noUsers == UpdateOnline(old(noUsers), Unframe(chunk).text)
      ensures !Unframe(chunk).Display? ==> shown == old(shown) && noUsers == old(noUsers)
    {
      var received := Unframe(chunk);
      if received.Display? {
        AppendText(received.text);
      }
    }

    /**
     * `grabText`: an empty entry does nothing; otherwise the stripped entry
     * is echoed as `You : ...`, which never changes the list, and sent.
     */
    method GrabText(text: string)
      requires Valid()
      modifies this
      ensures Valid() && noUsers == old(noUsers)
      ensures text == "" ==> shown == old(shown) && written == old(written)
      ensures text != "" ==>
                && shown == old(shown) + [Echo(text)]
                && written == old(written) + [Outgoing(text).value]
    {
      var line := Outgoing(text);
      if line.None? {
        return;
      }
      EchoNotCounted(noUsers, text);
      AppendText(Echo(text));
      written := written + [line.value];
    }
  }
}
