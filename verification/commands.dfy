/** The bot's command layer: `parse_input` and the handlers it dispatches
    to. Each handler takes the argument words and the book and gives the
    book afterwards, the reply the bot prints, and the line a record
    operation printed on the way, if any. The `input_error` decorator's
    conversion of `ValueError`, `KeyError` and `IndexError` into a reply is
    part of each handler. */
module Commands {
  import opened Results
  import opened Text
  import opened Calendar
  import opened Fields
  import opened Records
  import opened AddressBook
  import opened Upcoming

  /** Which argument count a handler asked for when it raised `ValueError`. */
  datatype Usage = NameAndPhone | NameOldAndNewPhone | NameAndDate

  /** The replies. Fixed messages are constructors; replies that carry
      data carry the text the handler builds. */
  datatype Reply =
    | WrongArguments(usage: Usage)  // a handler's own `ValueError`
    | ContactNotFound               // `KeyError`
    | ArgumentsMissing              // `IndexError`
    | ContactAdded
    | ContactUpdated
    | PhoneUpdated
    | Phones(text: string)
    | BookEmpty
    | Listing(text: string)
    | BirthdayAdded
    | BirthdayText(text: string)
    | NoBirthday
    | NoUpcoming
    | UpcomingList(text: string)    // the lines after the heading line
    | DateError(error: ReplaceError) // `date.replace`'s `ValueError`

  datatype Response = Response(book: Book, reply: Reply, printed: Option<Notice>)

  /** `parse_input`: the first word, lower-cased, and the remaining words.
      A blank line has no first word; the bot's loop fails on it. */
  function ParseInput(s: string): (r: Option<(string, seq<string>)>)
    ensures r.None? <==> RemoveSpaces(s) == ""
    ensures r.Some? ==> r.value.0 != "" && NoSpace(r.value.0)
    ensures r.Some? ==> forall k :: 0 <= k < |r.value.0| ==> !IsUpper(r.value.0[k])
    ensures r.Some? ==> forall k :: 0 <= k < |r.value.1| ==> r.value.1[k] != "" && NoSpace(r.value.1[k])
  {
    var words := Split(s);
    SplitKeepsText(s);
    if |words| == 0 then None
    else
      assert Concat(words) == words[0] + Concat(words[1..]);
      Some((Lower(words[0]), words[1..]))
  }

  /** Typing the words of a command with any blank runs around and
      between them gives the first word back, lower-cased, and the other
      words as the arguments; a line of blanks gives no command. */
  lemma ParseInputRoundTrip(gaps: seq<string>, ts: seq<string>)
    requires Separators(gaps, ts) && forall k :: 0 <= k < |ts| ==> Word(ts[k])
    ensures |ts| == 0 ==> ParseInput(Spread(gaps, ts)) == None
    ensures |ts| > 0 ==> ParseInput(Spread(gaps, ts)) == Some((Lower(ts[0]), ts[1..]))
  {
    SplitSpread(gaps, ts);
  }

  /** Every line is read that way: it is a layout of words, and the
      command and arguments are those words. */
  lemma ParseInputReadsWords(s: string) returns (gaps: seq<string>, ts: seq<string>)
    ensures Separators(gaps, ts) && (forall k :: 0 <= k < |ts| ==> Word(ts[k])) && Spread(gaps, ts) == s
    ensures ParseInput(s) == if |ts| == 0 then None else Some((Lower(ts[0]), ts[1..]))
  {
    ts := Split(s);
    gaps := SpreadOfSplit(s);
  }

  /** `add_contact`: exactly two arguments, a name and a phone. The record
      of that name is created (at the end of the book) when missing, and the
      phone goes through `add_phone`; the reply says whether the contact is
      new, even when the phone was rejected. */
  function AddContact(args: seq<string>, b: Book): (resp: Response)
    requires Valid(b)
    ensures Valid(resp.book)
    ensures |args| != 2 ==> resp == Response(b, WrongArguments(NameAndPhone), None)
    ensures |args| == 2 ==>
              var name, phone := args[0], args[1];
              var found := Find(b, name);
              var base := if found.Some? then found.value else NewRecord(name);
              && resp.reply == (if found.Some? then ContactUpdated else ContactAdded)
              && Find(resp.book, name).Some?
              && AsMap(resp.book.records) == AsMap(b.records)[name := Find(resp.book, name).value]
              && (found.Some? ==> Names(resp.book.records) == Names(b.records))
              && (found.None? ==> Names(resp.book.records) == Names(b.records) + [name])
              && Find(resp.book, name).value.birthday == base.birthday
              && (ValidPhone(phone) ==>
                    Find(resp.book, name).value.phones == base.phones + [phone] && resp.printed == None)
              && (!ValidPhone(phone) ==>
                    && Find(resp.book, name).value == base
                    && resp.printed == (if phone == "" then None else Some(PhoneRejected)))
  {
    if |args| != 2 then Response(b, WrongArguments(NameAndPhone), None)
    else
      var name, phone := args[0], args[1];
      var found := Find(b, name);
      var base := if found.Some? then found.value else NewRecord(name);
      var change := if phone != "" then AddPhone(base, phone) else Change(base, None);
      var b' := AddRecord(b, change.record);
      assert Find(b', name).value == change.record;
      Response(b', if found.Some? then ContactUpdated else ContactAdded, change.notice)
  }

  /** `change_phone`: exactly three arguments. For a known name the first
      entry equal to the old number becomes the new one, unchecked; the
      reply says "updated" even when no entry matched, in which case only
      the printed line tells. An unknown name is `KeyError`. */
  function ChangePhone(args: seq<string>, b: Book): (resp: Response)
    requires Valid(b)
    ensures Valid(resp.book)
    ensures |args| != 3 ==> resp == Response(b, WrongArguments(NameOldAndNewPhone), None)
    ensures |args| == 3 && Find(b, args[0]).None? ==> resp == Response(b, ContactNotFound, None)
    ensures |args| == 3 && Find(b, args[0]).Some? ==>
              var r := Find(b, args[0]).value;
              var change := EditPhone(r, args[1], args[2]);
              && resp.reply == PhoneUpdated
              && resp.printed == change.notice
              && Names(resp.book.records) == Names(b.records)
              && AsMap(resp.book.records) == AsMap(b.records)[args[0] := change.record]
  {
    if |args| != 3 then Response(b, WrongArguments(NameOldAndNewPhone), None)
    else
      match Find(b, args[0])
      case None => Response(b, ContactNotFound, None)
      case Some(r) =>
        var change := EditPhone(r, args[1], args[2]);
        Response(AddRecord(b, change.record), PhoneUpdated, change.notice)
  }

  /** An unknown old number changes nothing, prints the "not found" line,
      and is still answered with "updated". */
  lemma ChangePhoneOfMissingNumber(args: seq<string>, b: Book)
    requires Valid(b) && |args| == 3 && Find(b, args[0]).Some?
    requires args[1] !in Find(b, args[0]).value.phones
    ensures ChangePhone(args, b).reply == PhoneUpdated
    ensures ChangePhone(args, b).printed == Some(PhoneMissing(args[1]))
    ensures AsMap(ChangePhone(args, b).book.records) == AsMap(b.records)
  {
    var r := Find(b, args[0]).value;
    assert AsMap(b.records)[args[0] := r] == AsMap(b.records);
  }

  /** `show_phone`: the numbers of the named contact joined by ", "; extra
      arguments are ignored. */
  function ShowPhone(args: seq<string>, b: Book): (resp: Response)
    requires Valid(b)
    ensures resp.book == b && resp.printed == None
    ensures args == [] ==> resp.reply == ArgumentsMissing
    ensures args != [] && Find(b, args[0]).None? ==> resp.reply == ContactNotFound
    ensures args != [] && Find(b, args[0]).Some? ==>
              && resp.reply.Phones?
              && forall k :: 0 <= k < |Find(b, args[0]).value.phones| ==>
                   IsInfix(Find(b, args[0]).value.phones[k], resp.reply.text)
  {
    if args == [] then Response(b, ArgumentsMissing, None)
    else
      match Find(b, args[0])
      case None => Response(b, ContactNotFound, None)
      case Some(r) =>
        var text := Join(", ", r.phones);
        assert forall k :: 0 <= k < |r.phones| ==> IsInfix(r.phones[k], text) by {
          forall k | 0 <= k < |r.phones| ensures IsInfix(r.phones[k], text) {
            JoinContainsParts(", ", r.phones, k);
          }
        }
        Response(b, Phones(text), None)
  }

  /** One line of `show_all` per record, in book order. */
  function Lines(rs: seq<Record>): (ls: seq<string>)
    requires forall k :: 0 <= k < |rs| ==> WellFormed(rs[k])
    ensures |ls| == |rs|
    ensures forall k :: 0 <= k < |rs| ==> ls[k] == Describe(rs[k]) + "\n"
  {
    seq(|rs|, k requires 0 <= k < |rs| => Describe(rs[k]) + "\n")
  }

  /** `show_all`: every record's text followed by a newline, the whole
      stripped of surrounding whitespace. */
  function ShowAll(b: Book): (resp: Response)
    requires Valid(b)
    ensures resp.book == b && resp.printed == None
    ensures b.records == [] <==> resp.reply == BookEmpty
    ensures b.records != [] ==> resp.reply.Listing?
  {
    if b.records == [] then Response(b, BookEmpty, None)
    else Response(b, Listing(Strip(Concat(Lines(b.records)))), None)
  }

  /** Every record's text starts with "Contact name: ", so a listing has
      no leading whitespace to strip. */
  lemma LinesStartWithName(rs: seq<Record>)
    requires forall k :: 0 <= k < |rs| ==> WellFormed(rs[k])
    ensures rs == [] ==> Concat(Lines(rs)) == []
    ensures rs != [] ==> Concat(Lines(rs)) != [] && Concat(Lines(rs))[0] == 'C'
  {
    if rs != [] {
      var first := Describe(rs[0]) + "\n";
      assert Lines(rs) == [first] + Lines(rs)[1..];
      ConcatCons(first, Lines(rs)[1..]);
    }
  }

  /** The text of the listing before stripping: the last record's line
      comes after all the others. */
  lemma LinesOfLast(rs: seq<Record>)
    requires rs != [] && forall k :: 0 <= k < |rs| ==> WellFormed(rs[k])
    ensures Concat(Lines(rs)) == Concat(Lines(rs[..|rs| - 1])) + (Describe(rs[|rs| - 1]) + "\n")
  {
    var last := Describe(rs[|rs| - 1]);
    assert Lines(rs) == Lines(rs[..|rs| - 1]) + [last + "\n"];
    ConcatSnoc(Lines(rs[..|rs| - 1]), last + "\n");
  }

  lemma ListingLayout(rs: seq<Record>, init: seq<Record>, last: Record)
    requires forall k :: 0 <= k < |rs| ==> WellFormed(rs[k])
    requires rs == init + [last] && WellFormed(last) && forall k :: 0 <= k < |init| ==> WellFormed(init[k])
    ensures Strip(Concat(Lines(rs))) == Concat(Lines(init)) + RStrip(Describe(last))
  {
    assert rs[..|rs| - 1] == init;
    LinesStartWithName(init);
    LinesOfLast(rs);
    assert Describe(last)[0] == 'C';
    StripTrailingLine(Concat(Lines(init)), Describe(last));
  }

  /** What the listing looks like: each record but the last on a line of
      its own, then the last with its trailing whitespace dropped (a record
      without phones and birthday ends in a space). */
  lemma ShowAllLayout(b: Book)
    requires Valid(b) && b.records != []
    ensures var rs := b.records;
            ShowAll(b).reply.text
            == Concat(Lines(rs[..|rs| - 1])) + RStrip(Describe(rs[|rs| - 1]))
  {
    var rs := b.records;
    var init, last := rs[..|rs| - 1], rs[|rs| - 1];
    assert rs == init + [last];
    assert WellFormed(rs[|rs| - 1]);
    assert forall k :: 0 <= k < |init| ==> init[k] == rs[k];
    ListingLayout(rs, init, last);
  }

  /** `add_birthday`: exactly two arguments. For a known name the reply is
      "birthday added" whatever the date string; only the printed line
      tells whether `add_birthday` stored it. An unknown name is
      `KeyError`. */
  function AddBirthdayCmd(args: seq<string>, b: Book): (resp: Response)
    requires Valid(b)
    ensures Valid(resp.book)
    ensures |args| != 2 ==> resp == Response(b, WrongArguments(NameAndDate), None)
    ensures |args| == 2 && Find(b, args[0]).None? ==> resp == Response(b, ContactNotFound, None)
    ensures |args| == 2 && Find(b, args[0]).Some? ==>
              var r := Find(b, args[0]).value;
              && resp.reply == BirthdayAdded
              && Names(resp.book.records) == Names(b.records)
              && Find(resp.book, args[0]).Some?
              && Find(resp.book, args[0]).value.phones == r.phones
              && AsMap(resp.book.records) == AsMap(b.records)[args[0] := Find(resp.book, args[0]).value]
              && (ParseBirthday(args[1]).Success? ==>
                    && Find(resp.book, args[0]).value.birthday == Some(ParseBirthday(args[1]).value)
                    && resp.printed == Some(BirthdayStored))
              && (ParseBirthday(args[1]).Failure? ==>
                    resp.book == b && resp.printed == Some(DateRejected))
  {
    if |args| != 2 then Response(b, WrongArguments(NameAndDate), None)
    else
      match Find(b, args[0])
      case None => Response(b, ContactNotFound, None)
      case Some(r) =>
        var change := AddBirthday(r, args[1]);
        var b' := AddRecord(b, change.record);
        assert Find(b', args[0]).value == change.record;
        if change.record == r then
          StoreSameRecord(b, r);
          Response(b, BirthdayAdded, change.notice)
        else
          Response(b', BirthdayAdded, change.notice)
  }

  /** Storing a record that is already stored gives the same book. */
  lemma StoreSameRecord(b: Book, r: Record)
    requires Valid(b) && Find(b, r.name) == Some(r)
    ensures AddRecord(b, r) == b
  {
    var i := IndexOf(b.records, r.name);
    AsMapOfPositions(b.records);
    assert b.records[i := r] == b.records;
  }

  /** `show_birthday`: the named contact's birthday as DD.MM.YYYY. */
  function ShowBirthday(args: seq<string>, b: Book): (resp: Response)
    requires Valid(b)
    ensures resp.book == b && resp.printed == None
    ensures args == [] ==> resp.reply == ArgumentsMissing
    ensures args != [] && Find(b, args[0]).None? ==> resp.reply == ContactNotFound
    ensures args != [] && Find(b, args[0]).Some? && Find(b, args[0]).value.birthday.None? ==>
              resp.reply == NoBirthday
    ensures args != [] && Find(b, args[0]).Some? && Find(b, args[0]).value.birthday.Some? ==>
              && resp.reply.BirthdayText?
              && ZeroPadded(resp.reply.text)
              && ParseBirthday(resp.reply.text) == Success(Find(b, args[0]).value.birthday.value)
  {
    if args == [] then Response(b, ArgumentsMissing, None)
    else
      match Find(b, args[0])
      case None => Response(b, ContactNotFound, None)
      case Some(r) =>
        match r.birthday
        case None => Response(b, NoBirthday, None)
        case Some(d) =>
          FormatThenParse(d);
          Response(b, BirthdayText(FormatDate(d)), None)
  }

  /** A birthday typed as DD.MM.YYYY is shown back exactly as typed. */
  lemma BirthdayShownAsTyped(name: string, s: string, b: Book)
    requires Valid(b) && Find(b, name).Some? && ZeroPadded(s) && ParseBirthday(s).Success?
    ensures var b' := AddBirthdayCmd([name, s], b).book;
            ShowBirthday([name], b').reply == BirthdayText(s)
  {
    ParseThenFormat(s);
  }

  /** One line of the upcoming-birthdays reply: the weekday's name and the
      names due on it. */
  function GroupLine(g: Group): string {
    WeekdayName(g.day) + ": " + Join(", ", g.names) + "\n"
  }

  function GroupLines(gs: seq<Group>): (ls: seq<string>)
    ensures |ls| == |gs|
    ensures forall k :: 0 <= k < |gs| ==> ls[k] == GroupLine(gs[k])
  {
    seq(|gs|, k requires 0 <= k < |gs| => GroupLine(gs[k]))
  }

  /** `upcoming_birthdays`: the arguments are ignored and the book is left
      alone. A birthday that cannot be moved to the needed year turns the
      query's `ValueError` into the reply. */
  function UpcomingBirthdays(args: seq<string>, b: Book, today: Date): (resp: Response)
    requires Valid(b) && ValidDate(today)
    ensures resp.book == b && resp.printed == None
    ensures !Computable(b.records, today) <==> resp.reply.DateError?
    ensures resp.reply == NoUpcoming <==>
              Computable(b.records, today) && forall w :: NamesOn(b.records, today, w) == []
    ensures resp.reply.UpcomingList? <==>
              Computable(b.records, today) && exists w :: NamesOn(b.records, today, w) != []
    ensures resp.reply.UpcomingList? ==>
              && GetUpcomingBirthdays(b, today).Success?
              && resp.reply.text == RStrip(Concat(GroupLines(GetUpcomingBirthdays(b, today).value)))
  {
    match GetUpcomingBirthdays(b, today)
    case Failure(e) => Response(b, DateError(e), None)
    case Success(gs) =>
      if gs == [] then
        Response(b, NoUpcoming, None)
      else
        assert gs[0].names != [] && Lookup(gs, gs[0].day) == gs[0].names;
        assert NamesOn(b.records, today, gs[0].day) != [];
        Response(b, UpcomingList(RStrip(Concat(GroupLines(gs)))), None)
  }

  /** A 29 February birthday makes the whole query fail in a year that is
      not leap: the reply is the `date.replace` error, not a list. */
  lemma LeapDayBirthdayFailsQuery()
    ensures var b := Book([Record("Ann", [], Some(Date(2000, 2, 29)))]);
            UpcomingBirthdays([], b, Date(2023, 6, 10)).reply == DateError(DayOutOfRange)
  {
    var b := Book([Record("Ann", [], Some(Date(2000, 2, 29)))]);
    assert b.records[..0] == [];
  }
}
