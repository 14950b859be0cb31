/**
 * The server's lines as the client reads them. The server ends every line
 * with `\r\n`; the client reads up to each `<<<`, so every chunk after the
 * greeting starts with the previous line's `\r\n`.
 */
module EndToEnd {
  import opened PyStrings
  import S = ChatServer
  import C = ChatClient

  /**
   * Text without the characters of the frame markers `>>>` and `<<<`, and
   * without the bytes telnetlib's reader drops or takes as commands (NUL,
   * `\x11`, and the IAC byte `\xff`), so that it reaches `read_until` unchanged.
   */
  predicate Unmarked(s: string)
  {
    '<' !in s && '>' !in s && '\0' !in s && '\U{0011}' !in s && '\U{00FF}' !in s
  }

  /** A display name that `strip()` leaves as it is. */
  predicate Unpadded(s: string)
  {
    s != "" && !IsSpace(s[0]) && !IsSpace(s[|s| - 1])
  }

  /** The chunk `read_until('<<<')` returns for a server line that follows another line. */
  function Chunk(line: string): string
  {
    "\r\n" + line
  }

  /** The acceptance `OK<`, read up to its `<` right after the greeting, is accepted. */
  lemma AcceptedReply()
    ensures C.LoginCheck("\r\n" + S.NameAccepted) == C.Accepted
  {
    var a := "\r\nOK";
    assert "\r\n" + S.NameAccepted == a + "<";
    assert a == "\r\n" + "OK" + "";
    StripPadded("\r\n", "OK", "");
    C.LoginReadUntil(a);
  }

  /** The refusal, read up to its first `<`, is refused rather than raising. */
  lemma RefusedReply()
    ensures C.LoginCheck("\r\n>>> Username taken! <") == C.Refused
  {
    var t := ">>> Username taken!";
    RefusedParts(t);
    StripPadded("\r\n", t, " ");
    C.LoginReadUntil("\r\n" + t + " ");
  }

  /** The refusal chunk cut at its `<`, with the text `strip()` keeps in the middle. */
  lemma RefusedParts(t: string)
    requires t == ">>> Username taken!"
    ensures "\r\n>>> Username taken! <" == "\r\n" + t + " " + "<" && '<' !in "\r\n" + t + " "
  {
  }

  /** The greeting the client shows when it opens counts nobody. */
  lemma GreetingNotCounted()
    ensures C.UpdateOnline([], "\n" + S.Greeting + "\n") == []
    ensures C.UpdateOnlineFixed([], "\n" + S.Greeting + "\n") == []
  {
    var m := "\n" + S.Greeting + "\n";
    NotContainsClean(m, " : ", 1);
    FindSpec(m, " : ");
    StripPadded("\n", S.Greeting, "\n");
  }

  /** A join line is displayed with its frame removed. */
  lemma JoinShown(n: string)
    requires Unmarked(n)
    ensures C.Unframe(Chunk(S.JoinLine(n))) == C.Display("\n   User " + n + " AnSeo !   \n")
  {
    var pre, suf := "   User ", " AnSeo !   ";
    var body := pre + n + suf;
    JoinParts(n, pre, suf);
    UnmarkedAround(pre, n, suf);
    C.UnframeClean("\r\n", body, "");
    assert "\n" + body + "\n" == "\n" + pre + n + (suf + "\n");
  }

  /** The join line cut at its markers. */
  lemma JoinParts(n: string, pre: string, suf: string)
    requires pre == "   User " && suf == " AnSeo !   "
    ensures Chunk(S.JoinLine(n)) == "\r\n" + ">>>" + (pre + n + suf) + "<<<" + ""
    ensures "\n   User " + n + " AnSeo !   \n" == "\n" + pre + n + (suf + "\n")
    ensures '<' !in pre && '>' !in pre && '<' !in suf && '>' !in suf
  {
    assert ">>>   User " == ">>>" + pre;
    assert " AnSeo !   <<<" == suf + "<<<";
    assert "\n   User " == "\n" + pre;
    assert " AnSeo !   \n" == suf + "\n";
  }

  /** A relayed chat line is displayed as `name : message` with the server's two trailing spaces. */
  lemma ChatShown(n: string, m: string)
    requires Unmarked(n) && Unmarked(m)
    ensures C.Unframe(Chunk(S.ChatLine(n, m))) == C.Display("\n" + n + " : " + m + "  \n")
  {
    var body := n + " : " + m + "  ";
    assert Chunk(S.ChatLine(n, m)) == "\r\n" + ">>>" + body + "<<<" + "";
    assert "\n" + body + "\n" == "\n" + n + " : " + m + "  \n";
    C.UnframeClean("\r\n", body, "");
  }

  /** A departure line is displayed with its frame removed. */
  lemma DepartureShown(n: string)
    requires Unmarked(n)
    ensures C.Unframe(Chunk(S.DepartureLine(n))) == C.Display(DepartureText(n))
  {
    var pre, suf := "   User ", " amach sa teach !  ";
    var body := pre + n + suf;
    DepartureParts(n, pre, suf);
    UnmarkedAround(pre, n, suf);
    C.UnframeClean("\r\n ", body, "");
  }

  /** The departure line cut at its markers. */
  lemma DepartureParts(n: string, pre: string, suf: string)
    requires pre == "   User " && suf == " amach sa teach !  "
    ensures Chunk(S.DepartureLine(n)) == "\r\n " + ">>>" + (pre + n + suf) + "<<<" + ""
    ensures DepartureText(n) == "\n" + (pre + n + suf) + "\n"
    ensures '<' !in pre && '>' !in pre && '<' !in suf && '>' !in suf && '>' !in "\r\n "
  {
    assert " >>>   User " == " " + ">>>" + pre;
    assert " amach sa teach !  <<<" == suf + "<<<";
    assert "\n   User " == "\n" + pre;
    assert " amach sa teach !  \n" == suf + "\n";
    assert "\r\n" + " " == "\r\n ";
    assert DepartureText(n) == "\n" + pre + n + (suf + "\n");
  }

  /** Framing text around an unmarked name is free of markers when its two sides are. */
  lemma UnmarkedAround(pre: string, n: string, suf: string)
    requires Unmarked(n) && '<' !in pre && '>' !in pre && '<' !in suf && '>' !in suf
    ensures '<' !in pre + n + suf && '>' !in pre + n + suf
  {
  }

  /** What `appendText` receives for the departure of `n`. */
  function DepartureText(n: string): string
  {
    "\n   User " + n + " amach sa teach !  \n"
  }

  /**
   * A chat line from a sender with an unpadded, colon-free name counts that
   * sender in both versions of the bookkeeping, unless already listed or
   * named `You`, as long as the rest of the line holds no further ` : `.
   */
  lemma ChatCounted(noUsers: seq<string>, n: string, m: string)
    requires ':' !in n && Unpadded(n) && !Contains(m + "  \n", " : ")
    ensures C.UpdateOnline(noUsers, "\n" + n + " : " + m + "  \n") == C.Counted(noUsers, n)
    ensures C.UpdateOnlineFixed(noUsers, "\n" + n + " : " + m + "  \n") == C.Counted(noUsers, n)
  {
    var text := "\n" + n + " : " + m + "  \n";
    var tail := m + "  \n";
    assert text == ("\n" + n) + " : " + tail;
    FindAfterClean("\n" + n, " : ", tail, 1);
    SplitPair(text, " : ", "\n" + n, tail);
    assert "\n" + n == "\n" + n + "";
    StripPadded("\n", n, "");
    assert tail[|tail| - 1] == '\n';
  }

  /**
   * The departure of a listed user `n` whose name has no `:`: the as-written bookkeeping keeps
   * `n` listed (the text has no ` : `), while the corrected one removes
   * exactly `n`.
   */
  lemma DepartureCounted(noUsers: seq<string>, n: string)
    requires NoDup(noUsers) && "You" !in noUsers && n in noUsers && ':' !in n
    ensures C.UpdateOnline(noUsers, DepartureText(n)) == noUsers
    ensures C.UpdateOnlineFixed(noUsers, DepartureText(n)) == RemoveFirst(noUsers, n)
    ensures n in C.UpdateOnline(noUsers, DepartureText(n))
    ensures n !in C.UpdateOnlineFixed(noUsers, DepartureText(n))
  {
    var t := DepartureText(n);
    var gone := C.DepartedPrefix + n + C.DepartedSuffix;
    NotContainsClean(t, " : ", 1);
    FindSpec(t, " : ");
    assert t == "\n   " + gone + "  \n";
    StripPadded("\n   ", gone, "  \n");
    C.DepartureRemoves(noUsers, t, n);
  }
}
