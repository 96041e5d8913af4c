/** Record: one contact with its name, a list of phone values and an optional birthday. */
module Records {
  import opened Wrappers
  import opened Text
  import opened Fields

  const NOT_RECORDED: string := "Not recorded"
  const NO_BIRTHDAY: string := "Birthday info not recorded!"

  /** The data of a record at one moment: the name, the phone values in list order and the
      stored birthday text, if any. */
  datatype RecordValue = RecordValue(name: string, phones: seq<string>, birthday: Option<string>)

  /** What records built from validated fields satisfy: every phone is a digit string and the
      birthday is a canonical date text. */
  ghost predicate WellFormed(r: RecordValue) {
    && (forall i :: 0 <= i < |r.phones| ==> IsDigitString(r.phones[i]))
    && (r.birthday.Some? ==> IsIsoDate(r.birthday.value))
  }

  predicate NoDuplicates(ps: seq<string>) {
    forall i, j :: 0 <= i < j < |ps| ==> ps[i] != ps[j]
  }

  /** The phone list after add_phone(p): p is appended unless a phone of equal value is there. */
  function WithPhone(ps: seq<string>, p: string): seq<string> {
    if p in ps then ps else ps + [p]
  }

  /** add_phone keeps every phone, adds p exactly when it was missing, and never creates a
      duplicate. */
  lemma AddPhoneEffect(ps: seq<string>, p: string)
    ensures p in WithPhone(ps, p)
    ensures p in ps ==> WithPhone(ps, p) == ps
    ensures p !in ps ==> |WithPhone(ps, p)| == |ps| + 1 && WithPhone(ps, p)[..|ps|] == ps
    ensures multiset(WithPhone(ps, p)) == multiset(ps) + (if p in ps then multiset{} else multiset{p})
    ensures NoDuplicates(ps) ==> NoDuplicates(WithPhone(ps, p))
    ensures WithPhone(WithPhone(ps, p), p) == WithPhone(ps, p)
  {
  }

  /** The ValueError list.remove raises when no element compares equal to its argument. */
  const REMOVE_ERROR: string := "list.remove(x): x not in list"

  /** list.remove(p) for a Phone p: drop the first element equal to p (Field.__eq__ compares
      the values of two Phones). */
  function RemoveFirst(ps: seq<string>, p: string): seq<string>
    decreases |ps|
  {
    if ps == [] then []
    else if ps[0] == p then ps[1..]
    else [ps[0]] + RemoveFirst(ps[1..], p)
  }

  /** Index of the first element equal to p. */
  function FirstIndex(ps: seq<string>, p: string): (i: nat)
    requires p in ps
    ensures i < |ps| && ps[i] == p && p !in ps[..i]
    decreases |ps|
  {
    if ps[0] == p then 0
    else
      var k := FirstIndex(ps[1..], p);
      assert ps[..k + 1] == [ps[0]] + ps[1..][..k];
      k + 1
  }

  /** An absent value leaves the list unchanged. */
  lemma {:induction false} RemoveFirstAbsent(ps: seq<string>, p: string)
    requires p !in ps
    ensures RemoveFirst(ps, p) == ps
    decreases |ps|
  {
    if ps != [] {
      RemoveFirstAbsent(ps[1..], p);
      assert ps == [ps[0]] + ps[1..];
    }
  }

  /** Removing a present value takes out exactly its first occurrence; everything before and
      after it keeps its order. */
  lemma {:induction false} RemoveFirstAt(ps: seq<string>, p: string)
    requires p in ps
    ensures RemoveFirst(ps, p) == ps[..FirstIndex(ps, p)] + ps[FirstIndex(ps, p) + 1..]
    decreases |ps|
  {
    if ps[0] != p {
      RemoveFirstAt(ps[1..], p);
      var k := FirstIndex(ps[1..], p);
      assert ps[..k + 1] == [ps[0]] + ps[1..][..k];
      assert ps[k + 2..] == ps[1..][k + 1..];
    }
  }

  /** Removing takes exactly one copy of p out of the list's contents, none when p is absent. */
  lemma {:induction false} RemoveFirstMultiset(ps: seq<string>, p: string)
    ensures multiset(RemoveFirst(ps, p)) == multiset(ps) - multiset{p}
    decreases |ps|
  {
    if ps != [] {
      assert ps == [ps[0]] + ps[1..];
      if ps[0] != p {
        RemoveFirstMultiset(ps[1..], p);
      }
    }
  }

  /** Removing an element keeps the list made of digit strings. */
  lemma {:induction false} RemoveFirstKeepsDigits(ps: seq<string>, p: string)
    requires forall i :: 0 <= i < |ps| ==> IsDigitString(ps[i])
    ensures forall i :: 0 <= i < |RemoveFirst(ps, p)| ==> IsDigitString(RemoveFirst(ps, p)[i])
    decreases |ps|
  {
    if ps != [] {
      RemoveFirstKeepsDigits(ps[1..], p);
    }
  }

  /** The phone list after edit_phone(o, n): when o is present its first occurrence is removed
      and n appended at the end, without a duplicate check. */
  function Edited(ps: seq<string>, o: string, n: string): seq<string> {
    if o in ps then RemoveFirst(ps, o) + [n] else ps
  }

  lemma EditPhoneEffect(ps: seq<string>, o: string, n: string)
    ensures o !in ps ==> Edited(ps, o, n) == ps
    ensures o in ps ==> |Edited(ps, o, n)| == |ps| && Edited(ps, o, n)[|ps| - 1] == n
    ensures o in ps ==> multiset(Edited(ps, o, n)) == multiset(ps) - multiset{o} + multiset{n}
    ensures o in ps ==> Edited(ps, o, n)[..|ps| - 1] == RemoveFirst(ps, o)
  {
    if o in ps {
      RemoveFirstAt(ps, o);
      RemoveFirstMultiset(ps, o);
      assert multiset(ps) == multiset(ps) - multiset{o} + multiset{o};
    }
  }

  /** edit_phone may introduce a duplicate: the new value is not checked. */
  lemma EditPhoneMayDuplicate()
    ensures NoDuplicates(["1", "2"]) && !NoDuplicates(Edited(["1", "2"], "1", "2"))
  {
    var ps := ["1", "2"];
    assert ps[0] == "1";
    assert RemoveFirst(ps, "1") == ["2"];
    assert Edited(ps, "1", "2")[0] == Edited(ps, "1", "2")[1];
  }

  function BirthdayText(b: Option<string>): string {
    if b.None? then NOT_RECORDED else b.value
  }

  /** Record.__str__: one line "name: N, phones: P1, P2, birthday: B;" and a newline. */
  function Render(r: RecordValue): (line: string)
    ensures |line| > 0
    ensures StartsWith(line, "name: " + r.name + ", phones: " + Join(r.phones))
    ensures EndsWith(line, ", birthday: " + BirthdayText(r.birthday) + ";\n")
    ensures line[|line| - 2..] == ";\n"
  {
    var line := "name: " + r.name + ", phones: " + Join(r.phones) + ", birthday: " + BirthdayText(r.birthday) + ";\n";
    assert line[..|"name: " + r.name + ", phones: " + Join(r.phones)|] == "name: " + r.name + ", phones: " + Join(r.phones);
    line
  }

  /** What days_to_birthday returns, or raises. */
  datatype DaysOutcome = NotRecordedMessage(msg: string) | TypeErrorRaised

  /** Record.days_to_birthday with the stored value as it is: without a birthday it returns its
      sentinel message; with one, it calls replace(year=...) on the stored text, which a str
      refuses with a TypeError before the dates are compared. */
  function DaysToBirthday(r: RecordValue): (d: DaysOutcome)
    ensures d.NotRecordedMessage? <==> r.birthday.None?
    ensures d.NotRecordedMessage? ==> d.msg == NO_BIRTHDAY
  {
    if r.birthday.None? then NotRecordedMessage(NO_BIRTHDAY) else TypeErrorRaised
  }

  class Record {
    /** The name value; the key of the record in an address book. */
    const name: string
    var phones: seq<string>
    var birthday: Option<string>

    function Value(): RecordValue
      reads this
    {
      RecordValue(name, phones, birthday)
    }

    ghost predicate Valid()
      reads this
    {
      WellFormed(Value())
    }

    /** Record(name, phone=None, birthday=None): the phone list holds the one phone given. */
    constructor (name: Field, phone: Field?, birthday: Field?)
      requires name.kind == NameKind
      requires phone != null ==> phone.kind == PhoneKind && phone.Valid()
      requires birthday != null ==> birthday.kind == BirthdayKind && birthday.Valid()
      ensures Valid()
      ensures Value() == RecordValue(name.value,
                                     if phone == null then [] else [phone.value],
                                     if birthday == null then None else Some(birthday.value))
    {
      this.name := name.value;
      phones := if phone == null then [] else [phone.value];
      this.birthday := if birthday == null then None else Some(birthday.value);
      if birthday != null {
        BirthdayStoresIsoDate(Str(birthday.value));
      }
    }

    method AddPhone(phone: Field)
      requires Valid() && phone.kind == PhoneKind && phone.Valid()
      modifies this
      ensures Valid()
      ensures phones == WithPhone(old(phones), phone.value) && birthday == old(birthday)
    {
      if phone.value !in phones {
        phones := phones + [phone.value];
      }
    }

    /** delete_phone(phone). The guard compares values, but list.remove compares with
        Field.__eq__, which holds only between two fields of the same class: a field of another
        class whose value is listed passes the guard and then makes list.remove raise. */
    method DeletePhone(phone: Field) returns (status: Status)
      requires Valid()
      modifies this
      ensures Valid()
      ensures phone.value in old(phones) && phone.kind != PhoneKind ==>
        status == Raised(REMOVE_ERROR) && phones == old(phones)
      ensures phone.value in old(phones) && phone.kind == PhoneKind ==>
        status == Completed && phones == RemoveFirst(old(phones), phone.value)
      ensures phone.value !in old(phones) ==> status == Completed && phones == old(phones)
      ensures birthday == old(birthday)
    {
      status := Completed;
      if phone.value in phones {
        if phone.kind != PhoneKind {
          status := Raised(REMOVE_ERROR);
        } else {
          RemoveFirstKeepsDigits(phones, phone.value);
          phones := RemoveFirst(phones, phone.value);
        }
      }
    }

    /** edit_phone(old, new). As in delete_phone, an old field that is not a Phone but whose
        value is listed makes list.remove raise, before anything is appended. */
    method EditPhone(oldPhone: Field, newPhone: Field) returns (status: Status)
      requires Valid() && newPhone.kind == PhoneKind && newPhone.Valid()
      modifies this
      ensures Valid()
      ensures oldPhone.value in old(phones) && oldPhone.kind != PhoneKind ==>
        status == Raised(REMOVE_ERROR) && phones == old(phones)
      ensures !(oldPhone.value in old(phones) && oldPhone.kind != PhoneKind) ==>
        status == Completed && phones == Edited(old(phones), oldPhone.value, newPhone.value)
      ensures birthday == old(birthday)
    {
      status := Completed;
      if oldPhone.value in phones {
        if oldPhone.kind != PhoneKind {
          status := Raised(REMOVE_ERROR);
        } else {
          RemoveFirstKeepsDigits(phones, oldPhone.value);
          phones := RemoveFirst(phones, oldPhone.value) + [newPhone.value];
        }
      }
    }

    /** Record.__str__: the name and the joined phones first, the birthday text last. */
    function ToString(): (line: string)
      reads this
      ensures StartsWith(line, "name: " + name + ", phones: " + Join(phones))
      ensures EndsWith(line, ", birthday: " + BirthdayText(birthday) + ";\n")
    {
      Render(Value())
    }
  }
}
