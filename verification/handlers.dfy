/** The command handlers of main.py, each wrapped by `input_error`. The global
    `customers` book is passed in as `book`; the date that `strptime` parses
    from an argument and `datetime.today()` are passed in as values. */
module Handlers {
  import opened Base
  import opened PyStr
  import opened Fields
  import opened Dates
  import opened Records
  import opened Books

  /** What a handler returns: a message, the record `find_record` looks up,
      or the phone (or `None`) that `find_phone` looks up. */
  datatype Reply =
    | Text(text: string)
    | Contact(record: Record)
    | FoundPhone(phone: Option<Phone>)

  /** The message `input_error` substitutes for each exception. */
  function Message(e: Error): string {
    match e
    case IndexError => "Not enough params. It needs to have 2 params (Name Phone): "
    case KeyError => "This name doesn't have in the dictionary."
    case NameError => "This name is already in the dictionary. Use 'add phone' to append new phone."
    case ValueError => "The phone number must contains only 10 digit."
    case PhoneError => "This phone number doesn't exist in the dictionary."
    case DateError => "Birthday date error"
  }

  /** Each exception gets its own message, so the message tells which one was raised. */
  lemma MessageInjective(a: Error, b: Error)
    requires Message(a) == Message(b)
    ensures a == b
  {
    MessageLength(a);
    MessageLength(b);
  }

  /** The messages differ already in length. */
  lemma MessageLength(e: Error)
    ensures |Message(e)| == match e
      case IndexError => 59 case KeyError => 41 case NameError => 76
      case ValueError => 45 case PhoneError => 50 case DateError => 19
  {
  }

  /** `input_error(func)(*args)`: the handler's own reply, or the message for
      the exception it raised. */
  function InputError(res: Result<Reply>): (reply: Reply)
    ensures res.Ok? ==> reply == res.value
    ensures res.Err? ==> reply.Text? && Message(res.error) == reply.text
    ensures res.Err? ==> forall e :: reply == Text(Message(e)) <==> e == res.error
  {
    match res
    case Ok(r) => r
    case Err(e) =>
      assert forall e' :: Message(e') == Message(e) ==> e' == e by {
        forall e' | Message(e') == Message(e) ensures e' == e { MessageInjective(e', e); }
      }
      Text(Message(e))
  }

  /** The record `args[0].lower()` names, if there is one. */
  function Named(book: AddressBook, args: seq<string>): (r: Option<Record>)
    reads book, book.data.Values
    requires book.Valid()
    ensures |args| == 0 ==> r.None?
    ensures r.Some? ==> r.value in book.data.Values && r.value.Valid() && r.value.name == Lower(args[0])
  {
    if |args| == 0 then None else book.Find(Lower(args[0]))
  }

  /** `add_record`: refuses an existing name with `NameError`; otherwise files a
      new record under the lower-cased name with the phone `args[1]` (none if
      empty) and the birthday parsed from `args[2]`, if given and parsable.
      `parsed` is what `strptime` made of `args[2]` (`None` if it raised). An
      empty `args[2]` leaves `birthday` unbound, which raises a `NameError`. */
  method AddRecord(book: AddressBook, args: seq<string>, parsed: Option<Date>) returns (res: Result<Reply>)
    requires book.Valid()
    requires parsed.Some? ==> ValidDate(parsed.value)
    modifies book
    ensures book.Valid()
    ensures |args| < 2 ==> res == Err(IndexError)
    ensures |args| >= 2 && Lower(args[0]) in old(book.data) ==> res == Err(NameError)
    ensures |args| >= 2 && Lower(args[0]) !in old(book.data) && |args| > 2 && args[2] == "" ==> res == Err(NameError)
    ensures |args| >= 2 && Lower(args[0]) !in old(book.data) && (|args| == 2 || args[2] != "")
      ==> (res.Err? <==> args[1] != "" && !ValidPhone(args[1]))
    ensures res.Err? ==> book.keys == old(book.keys) && book.data == old(book.data)
    ensures res.Err? ==> res.error in {IndexError, NameError, ValueError}
    ensures |args| >= 2 && Lower(args[0]) !in old(book.data) && (|args| == 2 || args[2] != "") && res.Err?
      ==> res.error == ValueError
    ensures res.Ok? ==>
      var name := Lower(args[0]);
      var birthday := if |args| > 2 then parsed else None;
      && name !in old(book.data)
      && book.keys == old(book.keys) + [name]
      && book.data.Keys == old(book.data).Keys + {name}
      && (forall k :: k in old(book.data) ==> book.data[k] == old(book.data)[k])
      && fresh(book.data[name])
      && book.data[name].phones == (if args[1] != "" then [Phone(args[1])] else [])
      && book.data[name].birthday == birthday
      && res == Ok(Text("Add name = " + name + ", phone = " + args[1] + ", birthday = " + BirthdayText(birthday)))
      && FindRecord(book, args) == Ok(Contact(book.data[name]))
  {
    if |args| < 2 {
      return Err(IndexError);
    }
    var name := Lower(args[0]);
    var phone := args[1];
    var birthday: Option<Date>;
    var bound := true;
    if |args| > 2 {
      if args[2] != "" {
        birthday := parsed;
      } else {
        bound := false;
        birthday := None;
      }
    } else {
      birthday := None;
    }
    if name in book.data {
      return Err(NameError);
    }
    if !bound {
      return Err(NameError);
    }
    var rec := Record.New(name, if phone == "" then None else Some(phone), birthday);
    if rec.Err? {
      return Err(rec.error);
    }
    book.AddRecord(rec.value);
    return Ok(Text("Add name = " + name + ", phone = " + phone + ", birthday = " + BirthdayText(birthday)));
  }

  /** `change_record`: `edit_phone(args[1], args[2])` on the named record. */
  method ChangeRecord(book: AddressBook, args: seq<string>) returns (res: Result<Reply>)
    requires book.Valid()
    modifies book.data.Values
    ensures book.Valid()
    ensures |args| < 3 ==> res == Err(IndexError)
    ensures |args| >= 3 && Named(book, args).None? ==> res == Err(KeyError)
    ensures |args| >= 3 && Named(book, args).Some? ==>
      Changed(Named(book, args).value, old(Named(book, args).value.phones), args[1], args[2], res)
    ensures |args| >= 3 && Named(book, args).Some? ==>
      Named(book, args).value.birthday == old(Named(book, args).value.birthday)
    ensures forall k :: k in book.data && (|args| < 3 || k != Lower(args[0])) ==> unchanged(book.data[k])
  {
    if |args| < 3 {
      return Err(IndexError);
    }
    var rec := book.Find(Lower(args[0]));
    if rec.None? {
      return Err(KeyError);
    }
    var r := rec.value;
    var edited := r.EditPhone(args[1], args[2]);
    // Only `r` changed, and it is still valid: so is the book.
    forall k | k in book.data
      ensures book.data[k].Valid()
    {
      var o := book.data[k];
      assert o in old(book.data.Values);
      if o != r { assert old(o.Valid()); assert unchanged(o); }
    }
    if edited.Err? {
      return Err(edited.error);
    }
    return Ok(Text(edited.value));
  }

  /** What `change_record` leaves in `r`, whose phones were `before`, and answers. */
  ghost predicate Changed(r: Record, before: seq<Phone>, oldValue: string, newValue: string, res: Result<Reply>)
    reads r
  {
    match Edited(before, oldValue, newValue)
    case Ok(q) => res == Ok(Text(EditMessage(oldValue, newValue))) && r.phones == q
    case Err(e) => res == Err(e) && r.phones == before
  }

  /** `find_record`: the named record. */
  function FindRecord(book: AddressBook, args: seq<string>): (res: Result<Reply>)
    reads book, book.data.Values
    requires book.Valid()
    ensures |args| == 0 ==> res == Err(IndexError)
    ensures |args| > 0 ==> (res.Ok? <==> Lower(args[0]) in book.keys)
    ensures res.Ok? ==>
      res.value.Contact? && res.value.record == book.data[Lower(args[0])] && res.value.record.name == Lower(args[0])
    ensures |args| > 0 && res.Err? ==> res.error == KeyError
  {
    if |args| == 0 then Err(IndexError)
    else match book.Find(Lower(args[0]))
      case None => Err(KeyError)
      case Some(r) => Ok(Contact(r))
  }

  /** `del_record`: deletes the named record. */
  method DelRecord(book: AddressBook, args: seq<string>) returns (res: Result<Reply>)
    requires book.Valid()
    modifies book
    ensures book.Valid()
    ensures |args| == 0 ==> res == Err(IndexError)
    ensures |args| > 0 && Lower(args[0]) !in old(book.data) ==> res == Err(KeyError)
    ensures |args| > 0 && Lower(args[0]) in old(book.data) ==> res.Ok?
    ensures res.Err? ==> book.keys == old(book.keys) && book.data == old(book.data)
    ensures res.Ok? ==>
      && |args| > 0 && Lower(args[0]) in old(book.data)
      && book.data == old(book.data) - {Lower(args[0])}
      && book.keys == Without(old(book.keys), Lower(args[0]))
      && FindRecord(book, args) == Err(KeyError)
      && res == Ok(Text("Record with name " + Capitalize(args[0]) + " deleted."))
  {
    if |args| == 0 {
      return Err(IndexError);
    }
    var name := Lower(args[0]);
    if book.Find(name).None? {
      return Err(KeyError);
    }
    book.Delete(name);
    return Ok(Text("Record with name " + Capitalize(args[0]) + " deleted."));
  }

  /** `add_phone`: appends the phone `args[1]` to the named record. */
  method AddPhone(book: AddressBook, args: seq<string>) returns (res: Result<Reply>)
    requires book.Valid()
    modifies book.data.Values
    ensures book.Valid()
    ensures |args| < 2 ==> res == Err(IndexError)
    ensures |args| >= 2 && Named(book, args).None? ==> res == Err(KeyError)
    ensures |args| >= 2 && Named(book, args).Some? ==>
      var r := Named(book, args).value;
      && (ValidPhone(args[1]) ==>
            res == Ok(Text(Capitalize(args[0]) + "'s phone added another one " + args[1]))
            && r.phones == old(r.phones) + [Phone(args[1])])
      && (!ValidPhone(args[1]) ==> res == Err(ValueError) && r.phones == old(r.phones))
      && r.birthday == old(r.birthday)
    ensures forall k :: k in book.data && (|args| < 2 || k != Lower(args[0])) ==> unchanged(book.data[k])
  {
    if |args| < 2 {
      return Err(IndexError);
    }
    var rec := book.Find(Lower(args[0]));
    if rec.None? {
      return Err(KeyError);
    }
    var r := rec.value;
    var added := r.AddPhone(args[1]);
    // Only `r` changed, and it is still valid: so is the book.
    forall k | k in book.data
      ensures book.data[k].Valid()
    {
      var o := book.data[k];
      assert o in old(book.data.Values);
      if o != r { assert old(o.Valid()); assert unchanged(o); }
    }
    if added.Err? {
      return Err(added.error);
    }
    return Ok(Text(Capitalize(args[0]) + "'s phone added another one " + args[1]));
  }

  /** `find_phone`: the first phone of the named record equal to `args[1]`. A
      missing record raises `PhoneError` here, not `KeyError`. */
  method FindPhone(book: AddressBook, args: seq<string>) returns (res: Result<Reply>)
    requires book.Valid()
    ensures |args| < 2 ==> res == Err(IndexError)
    ensures |args| >= 2 && Named(book, args).None? ==> res == Err(PhoneError)
    ensures |args| >= 2 && Named(book, args).Some? ==>
      match Found(Named(book, args).value.phones, args[1])
      case Ok(p) => res == Ok(FoundPhone(p))
      case Err(e) => res == Err(e)
  {
    if |args| < 2 {
      return Err(IndexError);
    }
    var rec := book.Find(Lower(args[0]));
    if rec.None? {
      return Err(PhoneError);
    }
    var found := rec.value.FindPhone(args[1]);
    if found.Err? {
      return Err(found.error);
    }
    return Ok(FoundPhone(found.value));
  }

  /** `remove_phone`: removes the first phone of the named record equal to
      `args[1]`. A missing record raises `PhoneError`. */
  method RemovePhone(book: AddressBook, args: seq<string>) returns (res: Result<Reply>)
    requires book.Valid()
    modifies book.data.Values
    ensures book.Valid()
    ensures |args| < 2 ==> res == Err(IndexError)
    ensures |args| >= 2 && Named(book, args).None? ==> res == Err(PhoneError)
    ensures |args| >= 2 && Named(book, args).Some? ==>
      var r := Named(book, args).value;
      match Removed(old(r.phones), args[1])
      case Ok(q) => res == Ok(Text(args[1] + " deleted.")) && r.phones == q
      case Err(e) => res == Err(e) && r.phones == old(r.phones)
    ensures |args| >= 2 && Named(book, args).Some? ==>
      Named(book, args).value.birthday == old(Named(book, args).value.birthday)
    ensures forall k :: k in book.data && (|args| < 2 || k != Lower(args[0])) ==> unchanged(book.data[k])
  {
    if |args| < 2 {
      return Err(IndexError);
    }
    var rec := book.Find(Lower(args[0]));
    if rec.None? {
      return Err(PhoneError);
    }
    var r := rec.value;
    var removed := r.RemovePhone(args[1]);
    // Only `r` changed, and it is still valid: so is the book.
    forall k | k in book.data
      ensures book.data[k].Valid()
    {
      var o := book.data[k];
      assert o in old(book.data.Values);
      if o != r { assert old(o.Valid()); assert unchanged(o); }
    }
    if removed.Err? {
      return Err(removed.error);
    }
    return Ok(Text(args[1] + " deleted."));
  }

  /** `add_birhday`: sets the named record's birthday to the date parsed from
      `args[1]`. A missing or unparsable date, and a missing record, all raise
      `DateError` (the bare `except` also turns a missing `args[1]` into it). */
  method AddBirthday(book: AddressBook, args: seq<string>, parsed: Option<Date>) returns (res: Result<Reply>)
    requires book.Valid()
    requires parsed.Some? ==> ValidDate(parsed.value)
    modifies book.data.Values
    ensures book.Valid()
    ensures |args| == 0 ==> res == Err(IndexError)
    ensures |args| > 0 && (|args| < 2 || parsed.None? || Named(book, args).None?) ==> res == Err(DateError)
    ensures |args| >= 2 && parsed.Some? && Named(book, args).Some? ==> res.Ok?
    ensures res.Ok? ==>
      && |args| >= 2 && parsed.Some? && Named(book, args).Some?
      && Named(book, args).value.birthday == parsed
      && Named(book, args).value.phones == old(Named(book, args).value.phones)
      && res == Ok(Text(Capitalize(args[0]) + "'s birthday added " + args[1]))
    ensures res.Err? ==> forall k :: k in book.data ==> unchanged(book.data[k])
    ensures forall k :: k in book.data && (|args| < 2 || k != Lower(args[0])) ==> unchanged(book.data[k])
  {
    if |args| == 0 {
      return Err(IndexError);
    }
    if |args| < 2 || parsed.None? {
      return Err(DateError);
    }
    var rec := book.Find(Lower(args[0]));
    if rec.None? {
      return Err(DateError);
    }
    var r := rec.value;
    r.AddBirthday(parsed.value);
    // Only `r` changed, and it is still valid: so is the book.
    forall k | k in book.data
      ensures book.data[k].Valid()
    {
      var o := book.data[k];
      assert o in old(book.data.Values);
      if o != r { assert old(o.Valid()); assert unchanged(o); }
    }
    return Ok(Text(Capitalize(args[0]) + "'s birthday added " + args[1]));
  }

  /** `days_to_birthday`: the countdown for the named record, on `today`. */
  function DaysToBirthday(book: AddressBook, args: seq<string>, today: Date): (res: Result<Reply>)
    reads book, book.data.Values
    requires book.Valid() && ValidDate(today)
    ensures |args| == 0 ==> res == Err(IndexError)
    ensures |args| > 0 && Named(book, args).None? ==> res == Err(KeyError)
    ensures |args| > 0 && Named(book, args).Some? && Named(book, args).value.birthday.None? ==> res == Err(DateError)
    ensures res.Err? ==> res.error in {IndexError, KeyError, DateError, ValueError}
    ensures res.Ok? ==> exists d: nat :: (1 <= d <= 366
      && res == Ok(Text(NatToString(d) + " days to " + Capitalize(Lower(args[0])) + "'s birthday")))
  {
    if |args| == 0 then Err(IndexError)
    else
      var name := Lower(args[0]);
      match book.Find(name)
      case None => Err(KeyError)
      case Some(r) =>
        match r.DaysToBirthday(today)
        case Err(e) => Err(e)
        case Ok(days) => Ok(Text(NatToString(days) + " days to " + Capitalize(name) + "'s birthday"))
  }

  /** `phone`: `customers[name]` raises `KeyError` for an unknown name, and a
      record is always truthy, so a known name always gets the sentence. */
  function PhoneOf(book: AddressBook, args: seq<string>): (res: Result<Reply>)
    reads book, book.data.Values
    requires book.Valid()
    ensures |args| == 0 ==> res == Err(IndexError)
    ensures |args| > 0 ==> (res.Ok? <==> Lower(args[0]) in book.keys)
    ensures |args| > 0 && res.Err? ==> res.error == KeyError
    ensures res.Ok? ==> res == Ok(Text(Capitalize(Lower(args[0])) + " has "
      + book.data[Lower(args[0])].ToString() + " phone number."))
  {
    if |args| == 0 then Err(IndexError)
    else
      var name := Lower(args[0]);
      if name !in book.data then Err(KeyError)
      else Ok(Text(Capitalize(name) + " has " + book.data[name].ToString() + " phone number."))
  }
}
