/**
 * The pure decisions of the Flask front end: which uploads are accepted and
 * handed to the store, and how a chat request changes the session (the
 * selected character and the last few turns of dialogue).
 */
module WebApp {
  import opened Wrappers
  import opened PyStr
  import opened Batching
  import opened RagStore

  // ---------------------------------------------------------------------
  // Upload
  // ---------------------------------------------------------------------

  /** `ALLOWED_EXTENSIONS`. */
  const AllowedExtensions: set<string> := {"pdf", "txt"}

  /**
   * `allowed_file`: the name has a `.`, and the text after the last one,
   * lower-cased, is an allowed extension.
   */
  function AllowedFile(filename: string): (ok: bool)
    ensures ok ==> '.' in filename
    ensures ok <==> exists k :: LastAt(filename, '.', k) && Lower(filename[k + 1..]) in AllowedExtensions
  {
    match LastIndexOf(filename, '.')
    case None => false
    case Some(k) =>
      assert forall k' :: LastAt(filename, '.', k') ==> k' == k;
      Lower(filename[k + 1..]) in AllowedExtensions
  }

  /**
   * Only the text after the last dot matters: whatever the stem (dots
   * included), `stem.ext` is accepted exactly when `ext` lower-cases to an
   * allowed extension.
   */
  lemma AllowedFileByExtension(stem: string, ext: string)
    requires '.' !in ext
    ensures AllowedFile(stem + "." + ext) <==> Lower(ext) in AllowedExtensions
  {
    var f := stem + "." + ext;
    var k := |stem|;
    assert f[k] == '.';
    assert forall j :: k < j < |f| ==> f[j] == ext[j - k - 1];
    assert LastAt(f, '.', k);
    assert f[k + 1..] == ext;
    assert forall k' :: LastAt(f, '.', k') ==> k' == k;
  }

  /** Upper-case extensions are accepted. */
  lemma AllowedFileUpperCase()
    ensures AllowedFile("x.PDF")
  {
    assert Lower("PDF") == "pdf";
    AllowedFileByExtension("x", "PDF");
    assert "x" + "." + "PDF" == "x.PDF";
  }

  /** A bare extension after a leading dot is accepted. */
  lemma AllowedFileDotOnly()
    ensures AllowedFile(".txt")
  {
    assert Lower("txt") == "txt";
    AllowedFileByExtension("", "txt");
    assert "" + "." + "txt" == ".txt";
  }

  /** Without a dot nothing is accepted, even the extension itself. */
  lemma AllowedFileNeedsDot()
    ensures !AllowedFile("pdf")
  {
    assert '.' !in "pdf";
  }

  /** Only the last extension counts. */
  lemma AllowedFileLastExtension()
    ensures !AllowedFile("book.pdf.exe")
  {
    assert Lower("exe") == "exe";
    AllowedFileByExtension("book.pdf", "exe");
    assert "book.pdf" + "." + "exe" == "book.pdf.exe";
  }

  /** What the upload handler reports. */
  datatype UploadOutcome =
    | NoFilePart
    | NoFileSelected
    | InvalidType
    | ExtractionFailed
    | Uploaded(book: string)

  /**
   * The upload handler. `hasFile` says whether the request carries a file
   * part, `extracted` is the text extracted from the saved file and `secure`
   * stands for `secure_filename`. The store is only touched when the
   * extracted text is not blank; success is reported whatever
   * `add_to_store` returns.
   */
  method Upload(hasFile: bool, filename: string, extracted: string, secure: string -> string,
                disk: Disk, split: string -> seq<string>, embed: seq<string> -> seq<Vec>)
    returns (outcome: UploadOutcome, disk': Disk)
    requires OneVectorPerInput(embed)
    ensures !hasFile ==> outcome == NoFilePart
    ensures hasFile && filename == "" ==> outcome == NoFileSelected
    ensures hasFile && filename != "" && !AllowedFile(filename) ==> outcome == InvalidType
    ensures hasFile && AllowedFile(filename) && AllSpace(extracted) ==> outcome == ExtractionFailed
    ensures hasFile && AllowedFile(filename) && !AllSpace(extracted) ==> outcome == Uploaded(secure(filename))
    ensures !outcome.Uploaded? ==> disk' == disk
    ensures outcome.Uploaded? ==>
              LoadIndex(disk').metadata == LoadIndex(disk).metadata + Tag(outcome.book, split(extracted))
    ensures outcome.Uploaded? ==>
              LoadIndex(disk').index == LoadIndex(disk).index + EmbedBatches(embed, Batches(split(extracted)))
    ensures outcome.Uploaded? ==>
              |LoadIndex(disk').index| == |LoadIndex(disk).index| + |split(extracted)|
  {
    if !hasFile {
      return NoFilePart, disk;
    }
    if filename == "" {
      return NoFileSelected, disk;
    }
    if !AllowedFile(filename) {
      return InvalidType, disk;
    }
    var book := secure(filename);
    if Strip(extracted) == "" {
      return ExtractionFailed, disk;
    }
    var ok, d, saves, batches := AddToStore(disk, extracted, book, split, embed);
    if ok {
      SaveLoadRoundTrip(saves[0]);
    }
    return Uploaded(book), d;
  }

  // ---------------------------------------------------------------------
  // Chat
  // ---------------------------------------------------------------------

  /** One entry of `chat_history`, the pair `(role, message)`. */
  datatype Turn = Turn(role: string, message: string)

  /** The two session keys the chat handler uses. */
  datatype Session = Session(character: string, history: seq<Turn>)

  /** A chat request: a GET with the `character` query argument, or a POST form. */
  datatype ChatRequest =
    | Get(character: string)
    | Post(userInput: string, character: string)

  const DefaultCharacter := "Harry Potter"
  const UnknownCharacter := "Unknown Character"

  /** How many turns the session keeps (`chat_history[-5:]`). */
  const HistoryWindow: nat := 5

  /** The marker that ends the model's reasoning in its reply. */
  const ThinkClose := "</think>"

  /** A first request starts with the default character and no history. */
  function StartSession(prior: Option<Session>): (s: Session)
    ensures prior.None? ==> s.character == DefaultCharacter && s.history == []
    ensures prior.Some? ==> s == prior.value
  {
    match prior
    case None => Session(DefaultCharacter, [])
    case Some(s) => s
  }

  /**
   * A non-empty character different from the current one replaces it and
   * clears the history; an empty or identical one changes nothing.
   */
  function SelectCharacter(s: Session, chosen: string): (r: Session)
    ensures chosen != "" && chosen != s.character ==> r.character == chosen && r.history == []
    ensures chosen == "" || chosen == s.character ==> r == s
    ensures r.character == s.character ==> r.history == s.history
  {
    if chosen != "" && chosen != s.character then Session(chosen, []) else s
  }

  /** Selecting the same character again is a no-op. */
  lemma SelectCharacterIdempotent(s: Session, chosen: string)
    ensures SelectCharacter(SelectCharacter(s, chosen), chosen) == SelectCharacter(s, chosen)
  {
  }

  /** `session.get("character") or "Unknown Character"`. */
  function DisplayName(s: Session): (name: string)
    ensures name != ""
    ensures s.character != "" ==> name == s.character
    ensures s.character == "" ==> name == UnknownCharacter
  {
    if s.character == "" then UnknownCharacter else s.character
  }

  /**
   * The reply after `</think>` stripping: the text after the first
   * `</think>`, whitespace-stripped, or the reply unchanged when it holds no
   * `</think>`.
   */
  function CleanReply(reply: string): (r: string)
    ensures !Contains(reply, ThinkClose) ==> r == reply
    ensures Contains(reply, ThinkClose) ==> |r| <= |reply| - |ThinkClose|
    ensures Contains(reply, ThinkClose) && r != [] ==> !IsSpace(r[0]) && !IsSpace(r[|r| - 1])
  {
    match FindFirst(reply, ThinkClose)
    case None => reply
    case Some(k) => Strip(reply[k + |ThinkClose|..])
  }

  /**
   * A reply made of a reasoning part free of `</think>`, the marker, and an
   * answer is cleaned to the stripped answer, whatever the answer holds.
   */
  lemma CleanReplyAfterThought(thought: string, answer: string)
    requires !Contains(thought, ThinkClose)
    ensures CleanReply(thought + ThinkClose + answer) == Strip(answer)
  {
    var reply := thought + ThinkClose + answer;
    var k := |thought|;
    assert reply[k..k + |ThinkClose|] == ThinkClose;
    assert OccursAt(reply, ThinkClose, k);
    forall j | 0 <= j < k
      ensures !OccursAt(reply, ThinkClose, j)
    {
      if j + |ThinkClose| <= k {
        assert reply[j..j + |ThinkClose|] == thought[j..j + |ThinkClose|];
        assert !OccursAt(thought, ThinkClose, j);
      } else if j + |ThinkClose| <= |reply| {
        // A marker straddling the boundary would have the marker's leading
        // '<' at an inner offset, where "</think>" has none.
        var m := k - j;
        assert reply[j..j + |ThinkClose|][m] == '<';
        assert ThinkClose[m] != '<';
      }
    }
    assert FindFirst(reply, ThinkClose) == Some(k);
    assert reply[k + |ThinkClose|..] == answer;
  }

  /** Python's `xs[-n:]` for `n > 0`: the last `n` elements, or all of them. */
  function KeepLast<T>(xs: seq<T>, n: nat): (r: seq<T>)
    requires n > 0
    ensures |r| == Min(|xs|, n)
    ensures r == xs[|xs| - |r|..]
  {
    if |xs| <= n then xs else xs[|xs| - n..]
  }

  /**
   * Saving an exchange: the user and bot turns are appended and only the
   * last `HistoryWindow` turns are kept. The bot turn is last, the user turn
   * before it, and the older turns kept are the most recent ones of `h`.
   */
  function RecordExchange(h: seq<Turn>, input: string, reply: string): (r: seq<Turn>)
    ensures |r| == Min(|h| + 2, HistoryWindow)
    ensures r[|r| - 1] == Turn("bot", reply)
    ensures r[|r| - 2] == Turn("user", input)
    ensures r[..|r| - 2] == h[|h| - (|r| - 2)..]
  {
    var all := h + [Turn("user", input), Turn("bot", reply)];
    var r := KeepLast(all, HistoryWindow);
    assert r[..|r| - 2] == all[|all| - |r|..|all| - 2];
    assert all[..|h|] == h;
    r
  }

  /** While the history is short, nothing is dropped. */
  lemma RecordExchangeKeepsShortHistory(h: seq<Turn>, input: string, reply: string)
    requires |h| + 2 <= HistoryWindow
    ensures RecordExchange(h, input, reply) == h + [Turn("user", input), Turn("bot", reply)]
  {
    var r := RecordExchange(h, input, reply);
    assert r[..|r| - 2] == h;
    assert r == r[..|r| - 2] + [r[|r| - 2], r[|r| - 1]];
  }

  /** The transcript label: the character for bot turns, "You" for any other role. */
  function Speaker(role: string, character: string): (name: string)
    ensures role == "bot" ==> name == character
    ensures role != "bot" ==> name == "You"
  {
    if role == "bot" then character else "You"
  }

  /** One transcript line, `f"{speaker}: {msg}\n"`. */
  function Line(turn: Turn, character: string): (l: string)
    ensures |l| == |Speaker(turn.role, character)| + |turn.message| + 3
    ensures l[|l| - 1] == '\n'
  {
    Speaker(turn.role, character) + ": " + turn.message + "\n"
  }

  /** The dialogue text built from the history, one `speaker: message` line per turn. */
  function Transcript(h: seq<Turn>, character: string): (t: string)
    ensures t == "" <==> h == []
    ensures h != [] ==> Line(h[0], character) <= t
  {
    if h == [] then ""
    else Line(h[0], character) + Transcript(h[1..], character)
  }

  /** The transcript follows history order: it splits where the history splits. */
  lemma {:induction false} TranscriptAppend(a: seq<Turn>, b: seq<Turn>, character: string)
    ensures Transcript(a + b, character) == Transcript(a, character) + Transcript(b, character)
    decreases |a|
  {
    if a == [] {
      assert a + b == b;
    } else {
      assert (a + b)[1..] == a[1..] + b;
      TranscriptAppend(a[1..], b, character);
    }
  }

  /** A recorded exchange reads as the user's line, then the character's. */
  lemma TranscriptOfExchange(input: string, reply: string, character: string)
    ensures Transcript([Turn("user", input), Turn("bot", reply)], character)
         == "You: " + input + "\n" + character + ": " + reply + "\n"
  {
    var h := [Turn("user", input), Turn("bot", reply)];
    assert h[1..] == [Turn("bot", reply)];
    assert h[1..][1..] == [];
    assert Transcript(h[1..], character) == character + ": " + reply + "\n" + "";
  }

  /**
   * The chat handler's effect on the session. A GET only starts the session; a POST
   * first applies the character choice, then, when the stripped user input
   * is not empty, records the exchange with the cleaned model reply
   * (`completion` is the raw content the language model returned).
   */
  function Chat(prior: Option<Session>, req: ChatRequest, completion: string): (r: Session)
    ensures req.Get? ==> r == StartSession(prior)
    ensures req.Post? ==> r.character == SelectCharacter(StartSession(prior), Strip(req.character)).character
    ensures req.Post? && AllSpace(req.userInput) ==>
              r.history == SelectCharacter(StartSession(prior), Strip(req.character)).history
    ensures req.Post? && !AllSpace(req.userInput) ==>
              && 2 <= |r.history| <= HistoryWindow
              && r.history[|r.history| - 1] == Turn("bot", CleanReply(Strip(completion)))
              && r.history[|r.history| - 2] == Turn("user", Strip(req.userInput))
    ensures req.Post? && !AllSpace(req.userInput) ==>
              r.history == RecordExchange(SelectCharacter(StartSession(prior), Strip(req.character)).history,
                                          Strip(req.userInput), CleanReply(Strip(completion)))
    ensures |StartSession(prior).history| <= HistoryWindow ==> |r.history| <= HistoryWindow
  {
    var s := StartSession(prior);
    if req.Get? then s
    else
      var s' := SelectCharacter(s, Strip(req.character));
      var input := Strip(req.userInput);
      if input == "" then s'
      else
        var reply := CleanReply(Strip(completion));
        var h := RecordExchange(s'.history, input, reply);
        assert 2 <= |h| <= HistoryWindow;
        assert h[|h| - 1] == Turn("bot", reply) && h[|h| - 2] == Turn("user", input);
        s'.(history := h)
  }
}
