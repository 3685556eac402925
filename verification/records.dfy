/** `Record` (main.py): a contact's name, its ordered list of phones and an
    optional birthday, with the phone operations the handlers call. */
module Records {
  import opened Base
  import opened PyStr
  import opened Fields
  import opened Dates

  /** Every phone in the list passes the `Phone` check. */
  predicate AllValid(ps: seq<Phone>) {
    forall i {:trigger ValidPhone(ps[i].value)} :: 0 <= i < |ps| ==> ValidPhone(ps[i].value)
  }

  /** The index of the first phone whose value is `value`, the element the
      loops in `edit_phone`, `find_phone` and `remove_phone` stop at. */
  function FirstMatch(ps: seq<Phone>, value: string): (r: Option<nat>)
    ensures r.Some? ==> r.value < |ps| && ps[r.value].value == value
    ensures r.Some? ==> forall j :: 0 <= j < r.value ==> ps[j].value != value
    ensures r.None? ==> forall j :: 0 <= j < |ps| ==> ps[j].value != value
  {
    if ps == [] then None
    else if ps[0].value == value then Some(0)
    else match FirstMatch(ps[1..], value)
      case None => None
      case Some(i) => Some(i + 1)
  }

  lemma FirstMatchAt(ps: seq<Phone>, value: string, i: nat)
    requires i < |ps| && ps[i].value == value
    requires forall j :: 0 <= j < i ==> ps[j].value != value
    ensures FirstMatch(ps, value) == Some(i)
  {
  }

  /** The list `edit_phone(oldValue, newValue)` leaves, or the error it raises. */
  function Edited(ps: seq<Phone>, oldValue: string, newValue: string): Result<seq<Phone>> {
    match FirstMatch(ps, oldValue)
    case None => Err(ValueError)
    case Some(i) => if ValidPhone(newValue) then Ok(ps[i := Phone(newValue)]) else Err(ValueError)
  }

  /** What `find_phone(value)` returns, or the error it raises. The query is
      checked with `Phone(value)` only once the loop runs, so an empty list
      answers `None` to any query. */
  function Found(ps: seq<Phone>, value: string): Result<Option<Phone>> {
    if ps == [] then Ok(None)
    else if !ValidPhone(value) then Err(ValueError)
    else match FirstMatch(ps, value)
      case None => Ok(None)
      case Some(i) => Ok(Some(ps[i]))
  }

  /** The list `remove_phone(value)` leaves, or the error it raises. */
  function Removed(ps: seq<Phone>, value: string): Result<seq<Phone>> {
    if ps != [] && !ValidPhone(value) then Err(ValueError)
    else match FirstMatch(ps, value)
      case None => Err(PhoneError)
      case Some(i) => Ok(ps[..i] + ps[i + 1..])
  }

  predicate Contains(ps: seq<Phone>, value: string) {
    exists j :: 0 <= j < |ps| && ps[j].value == value
  }

  /** `edit_phone` succeeds exactly when some phone equals the old value and
      the new value is a valid phone; it then replaces the first such phone, at
      the same index, and nothing else. Every failure is `ValueError`. */
  lemma EditedSpec(ps: seq<Phone>, oldValue: string, newValue: string)
    ensures Edited(ps, oldValue, newValue).Ok? <==> Contains(ps, oldValue) && ValidPhone(newValue)
    ensures Edited(ps, oldValue, newValue).Err? ==> Edited(ps, oldValue, newValue).error == ValueError
    ensures Edited(ps, oldValue, newValue).Ok? ==>
      var q := Edited(ps, oldValue, newValue).value;
      && |q| == |ps|
      && exists i :: (0 <= i < |ps|
        && ps[i].value == oldValue && (forall j :: 0 <= j < i ==> ps[j].value != oldValue)
        && q[i] == Phone(newValue) && (forall j :: 0 <= j < |ps| && j != i ==> q[j] == ps[j]))
  {
    var m := FirstMatch(ps, oldValue);
    if m.Some? {
      assert ps[m.value].value == oldValue;
    }
  }

  /** Editing keeps every phone in the list valid. */
  lemma EditedKeepsValid(ps: seq<Phone>, oldValue: string, newValue: string)
    requires AllValid(ps) && Edited(ps, oldValue, newValue).Ok?
    ensures AllValid(Edited(ps, oldValue, newValue).value)
  {
  }

  /** After a successful edit, `find_phone(newValue)` finds the new phone. */
  lemma EditThenFindNew(ps: seq<Phone>, oldValue: string, newValue: string)
    requires Edited(ps, oldValue, newValue).Ok?
    ensures Found(Edited(ps, oldValue, newValue).value, newValue) == Ok(Some(Phone(newValue)))
  {
    var i := FirstMatch(ps, oldValue).value;
    var q := ps[i := Phone(newValue)];
    assert q[i].value == newValue;
    assert FirstMatch(q, newValue).Some?;
  }

  /** After a successful edit of a value that occurred only once, into a
      different value, `find_phone(oldValue)` no longer finds anything. */
  lemma EditThenFindOld(ps: seq<Phone>, oldValue: string, newValue: string)
    requires Edited(ps, oldValue, newValue).Ok?
    requires oldValue != newValue && ValidPhone(oldValue)
    requires forall j, k :: 0 <= j < k < |ps| ==> ps[j].value != oldValue || ps[k].value != oldValue
    ensures Found(Edited(ps, oldValue, newValue).value, oldValue) == Ok(None)
  {
    var i := FirstMatch(ps, oldValue).value;
    var q := ps[i := Phone(newValue)];
    forall j | 0 <= j < |q| ensures q[j].value != oldValue {
      if j > i {
        assert ps[i].value == oldValue;
      }
    }
    assert FirstMatch(q, oldValue).None?;
  }

  /** `find_phone` answers the first phone equal to the query, `None` when there
      is none (or the list is empty), and `ValueError` only for an invalid query
      against a non-empty list. */
  lemma FoundSpec(ps: seq<Phone>, value: string)
    ensures Found(ps, value).Err? <==> ps != [] && !ValidPhone(value)
    ensures Found(ps, value).Err? ==> Found(ps, value).error == ValueError
    ensures Found(ps, value) == Ok(None) <==> ps == [] || (ValidPhone(value) && !Contains(ps, value))
    ensures Found(ps, value).Ok? && Found(ps, value).value.Some? ==>
      Found(ps, value).value.value == Phone(value) && Phone(value) in ps
  {
    var m := FirstMatch(ps, value);
    if ps != [] && ValidPhone(value) && m.Some? {
      assert ps[m.value] == Phone(value);
    }
  }

  /** `remove_phone` deletes exactly the first phone equal to the value and keeps
      the others in order; with no such phone it raises `PhoneError`, and an
      invalid value against a non-empty list raises `ValueError`. */
  lemma RemovedSpec(ps: seq<Phone>, value: string)
    ensures Removed(ps, value).Ok? <==> ValidPhone(value) && Contains(ps, value)
    ensures Removed(ps, value) == Err(ValueError) <==> ps != [] && !ValidPhone(value)
    ensures Removed(ps, value) == Err(PhoneError) <==> (ps == [] || ValidPhone(value)) && !Contains(ps, value)
    ensures Removed(ps, value).Ok? ==>
      var q := Removed(ps, value).value;
      && |q| == |ps| - 1
      && multiset(ps) == multiset(q) + multiset{Phone(value)}
      && exists i :: (0 <= i < |ps| && ps[i] == Phone(value)
        && (forall j :: 0 <= j < i ==> ps[j].value != value)
        && q == ps[..i] + ps[i + 1..])
  {
    var m := FirstMatch(ps, value);
    if m.Some? {
      var i := m.value;
      assert ps[i] == Phone(value);
      assert ps == ps[..i] + [ps[i]] + ps[i + 1..];
      if ValidPhone(value) {
        assert ps != [];
      }
    }
  }

  /** `remove_phone` at the first matching index `i`. */
  lemma RemovedAt(ps: seq<Phone>, value: string, i: nat)
    requires ValidPhone(value) && i < |ps| && ps[i].value == value
    requires forall j :: 0 <= j < i ==> ps[j].value != value
    ensures Removed(ps, value) == Ok(ps[..i] + ps[i + 1..])
  {
    FirstMatchAt(ps, value, i);
  }

  /** `remove_phone` of a value no phone holds. */
  lemma RemovedMissing(ps: seq<Phone>, value: string)
    requires ps == [] || ValidPhone(value)
    requires forall j :: 0 <= j < |ps| ==> ps[j].value != value
    ensures Removed(ps, value) == Err(PhoneError)
  {
    assert FirstMatch(ps, value).None?;
  }

  /** Removing keeps every phone in the list valid. */
  lemma RemovedKeepsValid(ps: seq<Phone>, value: string)
    requires AllValid(ps) && Removed(ps, value).Ok?
    ensures AllValid(Removed(ps, value).value)
  {
    var i := FirstMatch(ps, value).value;
    var q := ps[..i] + ps[i + 1..];
    forall j | 0 <= j < |q| ensures ValidPhone(q[j].value) {
      if j < i { assert q[j] == ps[j]; } else { assert q[j] == ps[j + 1]; }
    }
  }

  /** `add_phone` followed by `remove_phone` of the same new value gives back
      the original list. */
  lemma AddThenRemove(ps: seq<Phone>, value: string)
    requires ValidPhone(value) && !Contains(ps, value)
    ensures Removed(ps + [Phone(value)], value) == Ok(ps)
  {
    var q := ps + [Phone(value)];
    var m := FirstMatch(q, value);
    assert forall j :: 0 <= j < |ps| ==> q[j] == ps[j];
    FirstMatchAt(q, value, |ps|);
    assert q != [];
    assert Removed(q, value) == Ok(q[..|ps|] + q[|ps| + 1..]);
    assert q[..|ps|] == ps;
    assert q[|ps| + 1..] == [];
    assert q[..|ps|] + q[|ps| + 1..] == ps;
  }

  /** `[p.value for p in phones]` */
  function PhoneValues(ps: seq<Phone>): (vs: seq<string>)
    ensures |vs| == |ps| && forall i :: 0 <= i < |ps| ==> vs[i] == ps[i].value
  {
    seq(|ps|, i requires 0 <= i < |ps| => ps[i].value)
  }

  lemma {:induction false} JoinedPhonesLength(xs: seq<string>)
    requires |xs| > 0 && forall i :: 0 <= i < |xs| ==> |xs[i]| == 10
    ensures |Join(xs, "; ")| == 12 * |xs| - 2
  {
    if |xs| > 1 {
      JoinedPhonesLength(xs[1..]);
    }
  }

  /** In `'; '.join(xs)` of ten-character texts, text `k` sits at characters
      `12k` to `12k + 10`. */
  lemma {:induction false} JoinedAt(xs: seq<string>, k: nat)
    requires k < |xs| && forall i :: 0 <= i < |xs| ==> |xs[i]| == 10
    ensures var s := Join(xs, "; ");
      12 * k + 10 <= |s| && s[12 * k..12 * k + 10] == xs[k]
  {
    JoinedPhonesLength(xs);
    var s := Join(xs, "; ");
    if |xs| > 1 {
      var rest := Join(xs[1..], "; ");
      assert s == xs[0] + "; " + rest;
      if k == 0 {
        assert s[..10] == xs[0];
      } else {
        JoinedAt(xs[1..], k - 1);
        assert s[12..] == rest;
        var a := 12 * (k - 1);
        assert 12 * k == 12 + a;
        assert s[12 + a..12 + a + 10] == s[12..][a..a + 10];
      }
    } else {
      assert s == xs[0];
    }
  }

  /** In the rendering `'; '.join(...)` of valid phones, phone `k` sits at
      characters `12k` to `12k + 10`, so each phone can be read back. */
  lemma JoinedPhoneAt(ps: seq<Phone>, k: nat)
    requires AllValid(ps) && k < |ps|
    ensures var s := Join(PhoneValues(ps), "; ");
      12 * k + 10 <= |s| && s[12 * k..12 * k + 10] == ps[k].value
  {
    var xs := PhoneValues(ps);
    forall i | 0 <= i < |ps| ensures |xs[i]| == 10 {
      assert ValidPhone(ps[i].value);
    }
    JoinedAt(xs, k);
  }

  /** `str(birthday)`: 'None' or the ISO date. */
  function BirthdayText(b: Option<Date>): string {
    match b
    case None => "None"
    case Some(d) => IsoFormat(d)
  }

  function EditMessage(oldValue: string, newValue: string): string {
    "Phone " + oldValue + " changed to phone " + newValue
  }

  class Record {
    const name: string
    var phones: seq<Phone>
    var birthday: Option<Date>

    /** Every stored phone is valid and the birthday, if any, is a real date. */
    ghost predicate Valid()
      reads this
    {
      AllValid(phones) && (birthday.Some? ==> ValidDate(birthday.value))
    }

    /** `Record(name, birthday=birthday)`: no phones yet. */
    constructor (name: string, birthday: Option<Date>)
      requires birthday.Some? ==> ValidDate(birthday.value)
      ensures Valid()
      ensures this.name == name && phones == [] && this.birthday == birthday
    {
      this.name := name;
      phones := [];
      this.birthday := birthday;
    }

    /** `Record(name, phone, birthday)`: a falsy phone (absent or empty) adds
        nothing; an invalid one makes the construction raise `ValueError`. */
    static method New(name: string, phone: Option<string>, birthday: Option<Date>) returns (res: Result<Record>)
      requires birthday.Some? ==> ValidDate(birthday.value)
      ensures res.Err? <==> phone.Some? && phone.value != "" && !ValidPhone(phone.value)
      ensures res.Err? ==> res.error == ValueError
      ensures res.Ok? ==> fresh(res.value) && res.value.Valid()
      ensures res.Ok? ==> res.value.name == name && res.value.birthday == birthday
      ensures res.Ok? ==> res.value.phones == if phone.Some? && phone.value != "" then [Phone(phone.value)] else []
    {
      var r := new Record(name, birthday);
      if phone.Some? && phone.value != "" {
        var added := r.AddPhone(phone.value);
        if added.Err? {
          return Err(added.error);
        }
      }
      return Ok(r);
    }

    /** `add_phone`: appends the validated phone, or raises `ValueError`. */
    method AddPhone(value: string) returns (res: Result<()>)
      requires Valid()
      modifies this`phones
      ensures Valid()
      ensures res.Ok? <==> ValidPhone(value)
      ensures res.Ok? ==> phones == old(phones) + [Phone(value)]
      ensures res.Err? ==> res.error == ValueError && phones == old(phones)
    {
      var p := NewPhone(value);
      if p.Err? {
        return Err(p.error);
      }
      phones := phones + [p.value];
      return Ok(());
    }

    /** `add_birthday`: sets or overwrites the birthday. */
    method AddBirthday(b: Date)
      requires Valid() && ValidDate(b)
      modifies this`birthday
      ensures Valid() && birthday == Some(b)
    {
      birthday := Some(b);
    }

    /** `days_to_birthday` with `today` given: `DateError` without a birthday,
        otherwise the countdown to the next anniversary after today. */
    function DaysToBirthday(today: Date): (r: Result<int>)
      reads this
      requires Valid() && ValidDate(today)
      ensures birthday.None? ==> r == Err(DateError)
      ensures r.Ok? ==> 1 <= r.value <= 366
      ensures birthday.Some? && r.Err? ==> r.error == ValueError
    {
      match birthday
      case None => Err(DateError)
      case Some(b) =>
        DaysToBirthdayRange(b, today);
        DaysToBirthdayError(b, today);
        Dates.DaysToBirthday(b, today)
    }

    /** `edit_phone`: replaces the first phone equal to `oldValue` in place. */
    method EditPhone(oldValue: string, newValue: string) returns (res: Result<string>)
      requires Valid()
      modifies this`phones
      ensures Valid()
      ensures match Edited(old(phones), oldValue, newValue)
        case Ok(q) => res == Ok(EditMessage(oldValue, newValue)) && phones == q
        case Err(e) => res == Err(e) && phones == old(phones)
    {
      var idx := 0;
      while idx < |phones|
        invariant 0 <= idx <= |phones|
        invariant phones == old(phones)
        invariant forall j :: 0 <= j < idx ==> phones[j].value != oldValue
      {
        if phones[idx].value == oldValue {
          var p := NewPhone(newValue);
          if p.Err? {
            return Err(p.error);
          }
          FirstMatchAt(phones, oldValue, idx);
          EditedKeepsValid(phones, oldValue, newValue);
          phones := phones[idx := p.value];
          return Ok(EditMessage(oldValue, newValue));
        }
        idx := idx + 1;
      }
      return Err(ValueError);
    }

    /** `find_phone`: the first phone equal to the query, `None` if there is none. */
    method FindPhone(value: string) returns (res: Result<Option<Phone>>)
      ensures res == Found(phones, value)
    {
      for i := 0 to |phones|
        invariant i > 0 ==> ValidPhone(value)
        invariant forall j :: 0 <= j < i ==> phones[j].value != value
      {
        var query := NewPhone(value);
        if query.Err? {
          return Err(query.error);
        }
        if query.value.value == phones[i].value {
          return Ok(Some(phones[i]));
        }
      }
      return Ok(None);
    }

    /** `remove_phone`: deletes the first phone equal to the value. */
    method RemovePhone(value: string) returns (res: Result<()>)
      requires Valid()
      modifies this`phones
      ensures Valid()
      ensures Removed(old(phones), value).Ok? ==> res == Ok(()) && phones == Removed(old(phones), value).value
      ensures Removed(old(phones), value).Err? ==> res == Err(Removed(old(phones), value).error) && phones == old(phones)
    {
      var i := 0;
      while i < |phones|
        invariant 0 <= i <= |phones|
        invariant phones == old(phones)
        invariant i > 0 ==> ValidPhone(value)
        invariant forall j :: 0 <= j < i ==> phones[j].value != value
      {
        var query := NewPhone(value);
        if query.Err? {
          return Err(query.error);
        }
        if query.value.value == phones[i].value {
          RemovedAt(phones, value, i);
          RemovedKeepsValid(phones, value);
          phones := phones[..i] + phones[i + 1..];
          return Ok(());
        }
        i := i + 1;
      }
      RemovedMissing(phones, value);
      return Err(PhoneError);
    }

    /** `str(record)` */
    function ToString(): string
      reads this
    {
      "Contact name: " + name + ", phones: " + Join(PhoneValues(phones), "; ")
        + ", birthday: " + BirthdayText(birthday)
    }
  }

  /** A record whose name and phones hold no line break renders on one line. */
  lemma RecordOnOneLine(r: Record)
    requires '\n' !in r.name && forall i :: 0 <= i < |r.phones| ==> '\n' !in r.phones[i].value
    ensures '\n' !in r.ToString()
  {
    JoinAvoids(PhoneValues(r.phones), "; ", '\n');
    if r.birthday.Some? {
      var d := r.birthday.value;
      var y, m, dd := if d.year < 0 then 0 else d.year, if d.month < 0 then 0 else d.month, if d.day < 0 then 0 else d.day;
      assert IsoFormat(d) == ZeroPad(y, 4) + "-" + ZeroPad(m, 2) + "-" + ZeroPad(dd, 2);
    }
  }

  /** A record session: `Record(name, first)`, then `add_phone(second)`, then
      `edit_phone(first, changed)` leaves the edited phone in first place and
      the added one after it. */
  method Scenario(name: string, first: string, second: string, changed: string) returns (phones: seq<Phone>)
    requires ValidPhone(first) && ValidPhone(second) && ValidPhone(changed)
    ensures phones == [Phone(changed), Phone(second)]
  {
    var made := Record.New(name, Some(first), None);
    var r := made.value;
    var added := r.AddPhone(second);
    assert FirstMatch(r.phones, first) == Some(0);
    var edited := r.EditPhone(first, changed);
    phones := r.phones;
  }
}
