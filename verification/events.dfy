/**
  The event store behind `/catat`, `/selesai` and `/events`: one text file of
  records, each followed by the delimiter when written by `/catat`. Records are
  what lies between delimiters; the file is read back with `Split` and written
  with `Join`, so the empty piece after a final delimiter is a piece too.
 */
module Events {
  import opened Strs
  import opened Strconv

  /** The record delimiter of the event file. */
  const Delim: string := "\n-----\n"

  /** The most pieces `/catat` leaves in the file. */
  const MaxPieces: int := 6

  const SavedPrompt: string :=
    "User just saved an event, tell them that they can check the events by typing /events or /selesai number to delete an event, example /selesai 1"
  const NoNumberPrompt: string :=
    "User tried to delete an event but they didn't specify the number, tell them to type /selesai number to delete an event, example /selesai 1"
  const NotFoundPrompt: string :=
    "User tried to delete an event but it is not found, tell them to type /selesai number to delete an event, example /selesai 1"
  const DeletedPrompt: string :=
    "User just deleted an event say success, then tell them that they can check the events by typing /events or add more by typing /catat then the event details"
  const NoEventsPrompt: string := "Reply that there are no events"
  const EventsHeader: string := "Reply these events, if it has urls reply the full url: \n"

  /** The event file after a command, and the prompt the command sets for the backend. */
  datatype CommandResult = CommandResult(store: string, prompt: string)

  /** The space-separated words of a command line. */
  function Words(text: string): (ws: seq<string>)
    ensures |ws| >= 1
  {
    Split(text, " ")
  }

  /** The logical records of the file: its pieces that are not empty. */
  function Records(store: string): seq<string>
  {
    NonEmpty(Split(store, Delim))
  }

  /** The record text of `/catat`: the words after the command joined by single spaces. */
  function Entry(text: string): (e: string)
    ensures Index(text, " ") < 0 ==> e == ""
    ensures 0 <= Index(text, " ") ==> e == text[Index(text, " ") + 1..]
  {
    var ws := Words(text);
    var m := Index(text, " ");
    if m >= 0 then
      assert ws[1..] == Split(text[m + 1..], " ");
      JoinSplit(text[m + 1..], " ");
      Join(ws[1..], " ")
    else
      Join(ws[1..], " ")
  }

  /**
    `/catat`: append the entry and a delimiter to the file, then, when the file
    splits into more than `MaxPieces` pieces, keep only the last `MaxPieces`.
   */
  function Catat(store: string, text: string): (r: CommandResult)
    ensures r.prompt == SavedPrompt
    ensures |Split(r.store, Delim)| <= MaxPieces
    ensures IsSuffix(r.store, store + (Entry(text) + Delim))
    ensures var ps := Split(store + (Entry(text) + Delim), Delim);
      && (|ps| <= MaxPieces ==> r.store == store + (Entry(text) + Delim))
      && (|ps| > MaxPieces ==> Split(r.store, Delim) == ps[|ps| - MaxPieces..])
  {
    var appended := store + (Entry(text) + Delim);
    var pieces := Split(appended, Delim);
    if |pieces| > MaxPieces then
      var k := |pieces| - MaxPieces;
      SplitJoinTail(appended, k, Delim);
      JoinSplit(appended, Delim);
      JoinOfTail(pieces, k, Delim);
      CommandResult(Join(pieces[k..], Delim), SavedPrompt)
    else
      CommandResult(appended, SavedPrompt)
  }

  /** The pieces left by a deletion: every non-empty piece except the one at `idx`. */
  function Kept(ps: seq<string>, idx: int): (r: seq<string>)
    ensures |r| <= |ps|
    ensures 0 <= idx < |ps| ==> |r| < |ps|
    ensures forall i :: 0 <= i < |r| ==> r[i] != ""
    decreases |ps|
  {
    if |ps| == 0 then []
    else (if idx != 0 && ps[0] != "" then [ps[0]] else []) + Kept(ps[1..], idx - 1)
  }

  /** `Kept` is the filter of the list with position `idx` taken out. */
  lemma {:induction false} KeptIsFilter(ps: seq<string>, idx: int)
    requires 0 <= idx < |ps|
    ensures Kept(ps, idx) == NonEmpty(ps[..idx] + ps[idx + 1..])
    decreases |ps|
  {
    if idx == 0 {
      KeptAll(ps[1..], -1);
      assert ps[..0] + ps[1..] == ps[1..];
    } else {
      KeptIsFilter(ps[1..], idx - 1);
      assert ps[..idx] + ps[idx + 1..] == [ps[0]] + (ps[1..][..idx - 1] + ps[1..][idx..]);
      NonEmptyConcat([ps[0]], ps[1..][..idx - 1] + ps[1..][idx..]);
    }
  }

  /** With no position to take out, `Kept` is the plain filter. */
  lemma {:induction false} KeptAll(ps: seq<string>, idx: int)
    requires idx < 0
    ensures Kept(ps, idx) == NonEmpty(ps)
    decreases |ps|
  {
    if |ps| > 0 {
      KeptAll(ps[1..], idx - 1);
    }
  }

  /** What is left of pieces by a deletion can still be read back after writing. */
  lemma {:induction false} KeptPieces(ps: seq<string>, idx: int)
    requires Pieces(ps, Delim)
    ensures Pieces(Kept(ps, idx), Delim)
    decreases |ps|
  {
    if |ps| > 0 {
      var head, tail := ps[0], ps[1..];
      assert ps == [head] + tail;
      PiecesCons(head, tail, Delim);
      KeptPieces(tail, idx - 1);
      var rest := Kept(tail, idx - 1);
      if idx != 0 && head != "" {
        assert Kept(ps, idx) == [head] + rest;
        assert |rest| > 0 ==> |tail| > 0 && Separable(head, Delim);
        PiecesCons(head, rest, Delim);
        assert Pieces([head] + rest, Delim);
      } else {
        assert Kept(ps, idx) == rest;
      }
    } else {
      assert Kept(ps, idx) == [];
    }
  }

  /**
    `/selesai n`: with no number, or a number that is not a valid 1-based piece
    position (text `Atoi` cannot read counts as 0, a number past the range as
    an int64 bound), nothing is written;
    otherwise the file becomes the remaining non-empty pieces joined.
   */
  function Selesai(store: string, text: string): (r: CommandResult)
    ensures |Words(text)| <= 1 ==> r == CommandResult(store, NoNumberPrompt)
    ensures |Words(text)| > 1 ==>
      var n := Atoi(Words(text)[1]);
      var ps := Split(store, Delim);
      && (1 <= n <= |ps| ==> r == CommandResult(Join(Kept(ps, n - 1), Delim), DeletedPrompt))
      && ((MinInt64 < n < 1 || |ps| < n) ==> r == CommandResult(store, NotFoundPrompt))
    ensures r.store == store || r.prompt == DeletedPrompt
  {
    var words := Words(text);
    var missing := |words| <= 1;
    var idx := if missing then 0 else Decrement64(Atoi(words[1]));
    var pieces := Split(store, Delim);
    var outOfRange := idx < 0 || idx >= |pieces|;
    if !missing && !outOfRange then
      CommandResult(Join(Kept(pieces, idx), Delim), DeletedPrompt)
    else
      CommandResult(store, if outOfRange then NotFoundPrompt else NoNumberPrompt)
  }

  /** `/events`: the stored text, verbatim, behind a fixed instruction; or a "no events" prompt. */
  function ListEvents(store: string): (r: CommandResult)
    ensures r.store == store
    ensures store == "" <==> r.prompt == NoEventsPrompt
    ensures store != "" ==> IsSuffix(store, r.prompt) && EventsHeader <= r.prompt
    ensures store != "" ==> |r.prompt| == |EventsHeader| + |store|
  {
    if store == "" then CommandResult(store, NoEventsPrompt)
    else
      assert |EventsHeader| > |NoEventsPrompt|;
      CommandResult(store, EventsHeader + store)
  }

  /**
    A valid deletion removes the chosen piece and nothing else: the records
    after are those before and after that position, in order. When the chosen
    piece is the empty piece after the final delimiter, no record goes at all.
   */
  lemma DeletionRemovesOnePiece(store: string, text: string)
    requires |Words(text)| > 1
    requires 1 <= Atoi(Words(text)[1]) <= |Split(store, Delim)|
    ensures var ps := Split(store, Delim);
      var i := Atoi(Words(text)[1]) - 1;
      && Records(Selesai(store, text).store) == NonEmpty(ps[..i]) + NonEmpty(ps[i + 1..])
      && Records(store) == NonEmpty(ps[..i]) + NonEmpty([ps[i]]) + NonEmpty(ps[i + 1..])
  {
    var ps := Split(store, Delim);
    var i := Atoi(Words(text)[1]) - 1;
    DeletionReadsBack(store, text);
    KeptAround(ps, i);
  }

  /** Taking out position `i` keeps the records on either side of it. */
  lemma KeptAround(ps: seq<string>, i: int)
    requires 0 <= i < |ps|
    ensures Kept(ps, i) == NonEmpty(ps[..i]) + NonEmpty(ps[i + 1..])
    ensures NonEmpty(ps) == NonEmpty(ps[..i]) + NonEmpty([ps[i]]) + NonEmpty(ps[i + 1..])
  {
    KeptIsFilter(ps, i);
    NonEmptyConcat(ps[..i], ps[i + 1..]);
    NonEmptyAround(ps, i);
  }

  /** The joined remainder of a split reads back as exactly its records. */
  lemma ReadBackKept(ps: seq<string>, idx: int)
    requires Pieces(ps, Delim)
    ensures Records(Join(Kept(ps, idx), Delim)) == Kept(ps, idx)
    ensures |Kept(ps, idx)| > 0 ==> Split(Join(Kept(ps, idx), Delim), Delim) == Kept(ps, idx)
  {
    var kept := Kept(ps, idx);
    NonEmptyOfNonEmpty(kept);
    if |kept| == 0 {
      assert Split("", Delim) == [""];
    } else {
      KeptPieces(ps, idx);
      SplitJoin(kept, Delim);
    }
  }

  /** No deletion makes the file split into more pieces than before. */
  lemma SelesaiNeverGrows(store: string, text: string)
    ensures |Split(Selesai(store, text).store, Delim)| <= |Split(store, Delim)|
  {
    var r := Selesai(store, text);
    if r.store != store {
      var ps := Split(store, Delim);
      var idx := Decrement64(Atoi(Words(text)[1]));
      SplitPieces(store, Delim);
      ReadBackKept(ps, idx);
      if |Kept(ps, idx)| == 0 {
        assert Split("", Delim) == [""];
      }
    }
  }

  /** `/catat` of an entry that does not complete a delimiter with the last piece before it. */
  predicate CleanAppend(store: string, entry: string) {
    Separable(Last(Split(store, Delim)) + entry, Delim)
  }

  /**
    A clean `/catat` adds one piece: the entry joined onto whatever followed the
    last delimiter (nothing, when the file ends with one), then the empty piece
    after the new delimiter. The file's earlier pieces are untouched.
   */
  lemma CatatAppendsPiece(store: string, text: string)
    requires CleanAppend(store, Entry(text))
    ensures var ps := Split(store, Delim);
      Split(store + (Entry(text) + Delim), Delim) == ps[..|ps| - 1] + [Last(ps) + Entry(text), ""]
  {
    SplitAppendPiece(store, Entry(text), Delim);
  }

  /**
    After a clean `/catat` the newest record, followed by the delimiter, ends
    the file, so `/events` recites it verbatim at the end of its prompt.
   */
  lemma CatatThenEvents(store: string, text: string)
    requires CleanAppend(store, Entry(text))
    ensures var q := Last(Split(store, Delim));
      var after := Catat(store, text).store;
      && IsSuffix(q + Entry(text) + Delim, after)
      && IsSuffix(q + Entry(text) + Delim, ListEvents(after).prompt)
  {
    var e := Entry(text);
    var q := Last(Split(store, Delim));
    var after := Catat(store, text).store;
    var qs := CatatLastPieces(store, text);
    JoinSplit(after, Delim);
    JoinEndsWith(qs, q + e, Delim);
    assert after != "";
    IsSuffixPrepend(q + e + Delim, after, EventsHeader);
  }

  /** The pieces of the file after a clean `/catat` end with the grown last piece and an empty one. */
  lemma CatatLastPieces(store: string, text: string) returns (qs: seq<string>)
    requires CleanAppend(store, Entry(text))
    ensures qs == Split(Catat(store, text).store, Delim)
    ensures |qs| >= 2 && qs[|qs| - 2..] == [Last(Split(store, Delim)) + Entry(text), ""]
  {
    var ps := Split(store, Delim);
    var grown := Last(ps) + Entry(text);
    var appended := store + (Entry(text) + Delim);
    CatatAppendsPiece(store, text);
    var all := Split(appended, Delim);
    EndsWithTwo(ps[..|ps| - 1], grown, "");
    var after := Catat(store, text).store;
    qs := Split(after, Delim);
    if |all| > MaxPieces {
      EndsOfSuffix(all, |all| - MaxPieces);
    }
  }

  lemma EndsWithTwo(xs: seq<string>, a: string, b: string)
    ensures var ys := xs + [a, b]; |ys| >= 2 && ys[|ys| - 2..] == [a, b]
  {
  }

  /** A suffix of at least two elements ends with the same two elements. */
  lemma EndsOfSuffix(xs: seq<string>, k: nat)
    requires k + 2 <= |xs|
    ensures var ys := xs[k..]; ys[|ys| - 2..] == xs[|xs| - 2..]
  {
  }

  /**
    A file written by a clean `/catat` ends with a delimiter, so one of its at
    most `MaxPieces` pieces is the empty one after it: at most five records.
   */
  lemma CatatLeavesFiveRecords(store: string, text: string)
    requires CleanAppend(store, Entry(text))
    ensures Last(Split(Catat(store, text).store, Delim)) == ""
    ensures |Records(Catat(store, text).store)| <= MaxPieces - 1
  {
    var qs := CatatLastPieces(store, text);
    var n := |qs|;
    assert qs[n - 1] == qs[n - 2..][1] == "";
    NonEmptyEmptyLast(qs);
  }

  /**
    After a deletion that leaves records, the file no longer ends with a
    delimiter: its last piece is the last record, and the next clean `/catat`
    joins its entry onto that record instead of starting a new one.
   */
  lemma DeletionThenCatatGlues(store: string, text: string, next: string)
    requires |Words(text)| > 1
    requires 1 <= Atoi(Words(text)[1]) <= |Split(store, Delim)|
    requires Records(Selesai(store, text).store) != []
    requires CleanAppend(Selesai(store, text).store, Entry(next))
    ensures var s := Selesai(store, text).store;
      && Last(Split(s, Delim)) == Last(Records(s)) != ""
      && Split(s + (Entry(next) + Delim), Delim) ==
         Records(s)[..|Records(s)| - 1] + [Last(Records(s)) + Entry(next), ""]
  {
    var s := Selesai(store, text).store;
    DeletionReadsBack(store, text);
    AppendAfterRecords(s, next);
  }

  /** A valid deletion writes the kept pieces, and the file reads back as them. */
  lemma DeletionReadsBack(store: string, text: string)
    requires |Words(text)| > 1
    requires 1 <= Atoi(Words(text)[1]) <= |Split(store, Delim)|
    ensures var s := Selesai(store, text).store;
      var kept := Kept(Split(store, Delim), Atoi(Words(text)[1]) - 1);
      && s == Join(kept, Delim)
      && Records(s) == kept
      && (kept != [] ==> Split(s, Delim) == kept)
  {
    KeptReadsBack(store, Atoi(Words(text)[1]) - 1);
  }

  /** The file's pieces with one taken out, joined, read back as themselves. */
  lemma KeptReadsBack(store: string, i: int)
    ensures var kept := Kept(Split(store, Delim), i);
      && Records(Join(kept, Delim)) == kept
      && (kept != [] ==> Split(Join(kept, Delim), Delim) == kept)
  {
    SplitPieces(store, Delim);
    ReadBackKept(Split(store, Delim), i);
  }

  /** A file that is exactly its records, with no trailing empty piece, grows its last record on a clean `/catat`. */
  lemma AppendAfterRecords(s: string, next: string)
    requires Split(s, Delim) == Records(s) != []
    requires CleanAppend(s, Entry(next))
    ensures Last(Split(s, Delim)) == Last(Records(s)) != ""
    ensures Split(s + (Entry(next) + Delim), Delim) ==
      Records(s)[..|Records(s)| - 1] + [Last(Records(s)) + Entry(next), ""]
  {
    var rs := Records(s);
    assert rs[|rs| - 1] in rs;
    CatatAppendsPiece(s, next);
  }

  /** `/selesai n`, typed as the number, deletes piece `n`. */
  lemma SelesaiByNumber(store: string, n: int)
    requires 1 <= n <= |Split(store, Delim)| && n <= MaxInt64
    ensures var ps := Split(store, Delim);
      Selesai(store, "/selesai " + Itoa(n)) == CommandResult(Join(Kept(ps, n - 1), Delim), DeletedPrompt)
  {
    var text := "/selesai " + Itoa(n);
    WordsOfNumberCommand(n);
    AtoiItoa(n);
    assert Atoi(Words(text)[1]) == n;
  }

  /** A command followed by one space and a written non-negative number splits into those two words. */
  lemma WordsOfNumberCommand(n: nat)
    ensures Words("/selesai " + Itoa(n)) == ["/selesai", Itoa(n)]
  {
    var digits := Itoa(n);
    DigitsHaveNoSpace(n);
    SplitFree(digits, " ");
    SeparableWhenFree("/selesai", " ");
    CommandThenSpace(digits);
    SplitAfterSeparable("/selesai", digits, " ");
  }

  /** A written non-negative number has no space in it. */
  lemma DigitsHaveNoSpace(n: nat)
    ensures forall i :: 0 <= i < |Itoa(n)| ==> Itoa(n)[i] != " "[0]
  {
    var digits := Itoa(n);
    assert digits == NatDigits(n) && AllDigits(digits);
    forall i | 0 <= i < |digits| ensures digits[i] != " "[0] {
      assert IsDigit(digits[i]);
    }
  }

  /** The command, one space and the argument, as three parts. */
  lemma CommandThenSpace(arg: string)
    ensures "/selesai " + arg == "/selesai" + " " + arg
  {
  }

  /** Taking out a final empty piece removes nothing the filter would keep. */
  lemma {:induction false} KeptTrailingEmpty(ps: seq<string>)
    requires |ps| > 0 && ps[|ps| - 1] == ""
    ensures Kept(ps, |ps| - 1) == NonEmpty(ps)
  {
    var n := |ps|;
    KeptIsFilter(ps, n - 1);
    var init := ps[..n - 1];
    assert init + ps[n..] == init;
    NonEmptyEmptyLast(ps);
  }

  /**
    The empty piece after a final delimiter can be "deleted": the number one
    past the last record is accepted and reported as a success, yet every
    record is still there.
   */
  lemma DeletingTrailingPieceKeepsRecords(store: string)
    requires Last(Split(store, Delim)) == "" && |Split(store, Delim)| <= MaxInt64
    ensures var n := |Split(store, Delim)|;
      var r := Selesai(store, "/selesai " + Itoa(n));
      r.prompt == DeletedPrompt && Records(r.store) == Records(store)
  {
    var ps := Split(store, Delim);
    var n := |ps|;
    var kept := Kept(ps, n - 1);
    SelesaiByNumber(store, n);
    var r := Selesai(store, "/selesai " + Itoa(n));
    assert r == CommandResult(Join(kept, Delim), DeletedPrompt);
    SplitPieces(store, Delim);
    ReadBackKept(ps, n - 1);
    KeptTrailingEmpty(ps);
    assert Records(r.store) == kept == NonEmpty(ps) == Records(store);
  }
}
