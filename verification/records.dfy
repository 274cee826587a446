/** `Record`: one contact's name, its ordered phone list and an optional
    birthday, with the phone and birthday operations and the text
    `str(record)` produces. Each operation returns the new record together
    with the line it would print. */
module Records {
  import opened Results
  import opened Text
  import opened Calendar
  import opened Fields
  import opened Lists

  datatype Record = Record(name: string, phones: seq<string>, birthday: Option<Date>)

  /** The lines the record and book operations print instead of raising. */
  datatype Notice =
    | PhoneRejected                 // the `ValueError` of `Phone`
    | PhoneMissing(phone: string)   // `edit_phone` found no such number
    | BirthdayStored                // "Birthday added."
    | DateRejected                  // the `ValueError` of `Birthday`
    | ContactMissing(name: string)  // `delete` of an absent name

  /** A record after an operation, and what the operation printed. */
  datatype Change = Change(record: Record, notice: Option<Notice>)

  /** A stored birthday is always a real date: only `Birthday` sets it. */
  predicate WellFormed(r: Record) {
    r.birthday.Some? ==> ValidDate(r.birthday.value)
  }

  /** `Record(name)`: no phones and no birthday yet. */
  function NewRecord(name: string): (r: Record)
    ensures r.name == name && r.phones == [] && r.birthday == None
    ensures WellFormed(r) && PhonesValid(r)
  {
    Record(name, [], None)
  }

  /** Every stored phone is ten digits. */
  predicate PhonesValid(r: Record) {
    forall k :: 0 <= k < |r.phones| ==> ValidPhone(r.phones[k])
  }

  /** `add_phone`: a valid number is appended at the end, even when the
      same digits are already listed (the membership test compares a fresh
      `Phone` object by identity and never finds it); an invalid number
      leaves the record as it was and prints the validation error. */
  function AddPhone(r: Record, p: string): (c: Change)
    ensures c.record.name == r.name && c.record.birthday == r.birthday
    ensures ValidPhone(p) ==> c.record.phones == r.phones + [p] && c.notice == None
    ensures !ValidPhone(p) ==> c.record == r && c.notice == Some(PhoneRejected)
  {
    match ParsePhone(p)
    case Success(v) => Change(r.(phones := r.phones + [v]), None)
    case Failure(_) => Change(r, Some(PhoneRejected))
  }

  /** `remove_phone`: every entry equal to `p` is dropped, the rest keep
      their relative order, and nothing is printed. */
  function RemovePhone(r: Record, p: string): (r': Record)
    ensures r'.name == r.name && r'.birthday == r.birthday
    ensures r'.phones == RemoveAll(r.phones, p)
    ensures p !in r'.phones
    ensures multiset(r'.phones) == multiset(r.phones)[p := 0]
    ensures p !in r.phones ==> r' == r
  {
    RemoveAllCounts(r.phones, p);
    if p in r.phones then r.(phones := RemoveAll(r.phones, p))
    else
      RemoveAllAbsent(r.phones, p);
      r
  }

  /** An entry other than `p` stays, between what is left of the entries
      before it and what is left of the entries after it. */
  lemma RemovePhoneKeepsOrder(r: Record, p: string, front: seq<string>, q: string, back: seq<string>)
    requires r.phones == front + [q] + back && q != p
    ensures RemovePhone(r, p).phones == RemoveAll(front, p) + [q] + RemoveAll(back, p)
  {
    RemoveAllAppend(front + [q], back, p);
    RemoveAllAppend(front, [q], p);
    assert RemoveAll([q], p) == [q] by {
      assert [q][1..] == [];
    }
  }

  /** `edit_phone`: the first entry equal to `oldPhone` is overwritten with
      `newPhone` in place, without validating `newPhone`; all other entries stay.
      With no such entry the list is unchanged and "not found" is printed. */
  function EditPhone(r: Record, oldPhone: string, newPhone: string): (c: Change)
    ensures c.record.name == r.name && c.record.birthday == r.birthday
    ensures |c.record.phones| == |r.phones|
    ensures forall k :: 0 <= k < |r.phones| && k != FirstIndex(r.phones, oldPhone) ==> c.record.phones[k] == r.phones[k]
    ensures oldPhone in r.phones ==> c.record.phones[FirstIndex(r.phones, oldPhone)] == newPhone
    ensures oldPhone in r.phones ==> c.notice == None
    ensures oldPhone !in r.phones ==> c.record == r && c.notice == Some(PhoneMissing(oldPhone))
  {
    var phones := ReplaceFirst(r.phones, oldPhone, newPhone);
    if oldPhone in r.phones then Change(r.(phones := phones), None)
    else
      ReplaceFirstAbsent(r.phones, oldPhone, newPhone);
      Change(r, Some(PhoneMissing(oldPhone)))
  }

  /** `find_phone`: the stored number equal to `p`, or nothing. */
  function FindPhone(r: Record, p: string): (f: Option<string>)
    ensures f.Some? <==> p in r.phones
    ensures f.Some? ==> f.value == p
  {
    FindIn(r.phones, p)
  }

  function FindIn(ps: seq<string>, p: string): (f: Option<string>)
    ensures f.Some? <==> p in ps
    ensures f.Some? ==> f.value == p
    decreases |ps|
  {
    if |ps| == 0 then None
    else if ps[0] == p then Some(ps[0])
    else
      assert ps == [ps[0]] + ps[1..];
      FindIn(ps[1..], p)
  }

  /** `add_birthday`: a string that reads as a date replaces the birthday
      and prints "Birthday added."; any other string leaves the previous
      birthday (or its absence) and prints the validation error. */
  function AddBirthday(r: Record, s: string): (c: Change)
    requires WellFormed(r)
    ensures WellFormed(c.record)
    ensures c.record.name == r.name && c.record.phones == r.phones
    ensures ParseBirthday(s).Success? ==>
              c.record.birthday == Some(ParseBirthday(s).value) && c.notice == Some(BirthdayStored)
    ensures ParseBirthday(s).Failure? ==> c.record == r && c.notice == Some(DateRejected)
  {
    match ParseBirthday(s)
    case Success(d) => Change(r.(birthday := Some(d)), Some(BirthdayStored))
    case Failure(_) => Change(r, Some(DateRejected))
  }

  /** `str(record)`: the name, the phones joined by "; " in list order and,
      when set, the birthday as DD.MM.YYYY. The text starts with the name
      and shows every phone and the labelled birthday. */
  function Describe(r: Record): (s: string)
    requires WellFormed(r)
    ensures ("Contact name: " + r.name + ", phones: ") <= s
    ensures forall k :: 0 <= k < |r.phones| ==> IsInfix(r.phones[k], s)
    ensures r.birthday.Some? ==> IsInfix(", birthday: " + FormatDate(r.birthday.value), s)
  {
    var head := "Contact name: " + r.name + ", phones: ";
    var tail := match r.birthday
       case None => ""
       case Some(b) => ", birthday: " + FormatDate(b);
    PartsShown(head, "; ", r.phones, tail);
    head + Join("; ", r.phones) + tail
  }

  /** A text made of a head, joined parts and a tail starts with the head
      and contains every part and the tail. */
  lemma PartsShown(head: string, sep: string, parts: seq<string>, tail: string)
    ensures head <= head + Join(sep, parts) + tail
    ensures forall k :: 0 <= k < |parts| ==> IsInfix(parts[k], head + Join(sep, parts) + tail)
    ensures IsInfix(tail, head + Join(sep, parts) + tail)
  {
    var whole := head + Join(sep, parts) + tail;
    assert whole == head + (Join(sep, parts) + tail);
    forall k | 0 <= k < |parts|
      ensures IsInfix(parts[k], whole)
    {
      JoinContainsParts(sep, parts, k);
      InfixOfSuffix(parts[k], head, Join(sep, parts));
      InfixOfPrefix(parts[k], head + Join(sep, parts), tail);
    }
    assert IsInfix(tail, tail) by {
      assert tail <= tail;
    }
    InfixOfSuffix(tail, head + Join(sep, parts), tail);
  }

  /** `add_phone` keeps "every phone is ten digits"; `edit_phone` does not:
      changing a valid number to "12" stores "12". */
  lemma AddPhoneKeepsValidity(r: Record, p: string)
    requires PhonesValid(r)
    ensures PhonesValid(AddPhone(r, p).record)
  {
  }

  lemma EditPhoneSkipsValidation()
    ensures var r := Record("Ann", ["0501234567"], None);
            PhonesValid(r) && !PhonesValid(EditPhone(r, "0501234567", "12").record)
  {
    var r := Record("Ann", ["0501234567"], None);
    assert EditPhone(r, "0501234567", "12").record.phones[0] == "12";
  }

  /** Adding the same valid number twice lists it twice. */
  lemma AddPhoneTwiceDuplicates(r: Record, p: string)
    requires ValidPhone(p)
    ensures multiset(AddPhone(AddPhone(r, p).record, p).record.phones)[p] == multiset(r.phones)[p] + 2
  {
  }
}
