/** AddressBook: a dict from name to record that keeps insertion order, with search, paging,
    export and recovery. The dict holds the records' values (see README, "Left out"). */
module AddressBooks {
  import opened Wrappers
  import opened Text
  import opened Fields
  import opened Records
  import opened BookSpec
  import opened Pages

  /** The argument of iterator(num): an int, or anything else (None, a str, a bool, ...). */
  datatype Arg = IntArg(i: int) | OtherArg

  /** The page size iterator(num) sets: num when it is a positive int, else 1. */
  function PageSizeFor(num: Arg): (n: int)
    ensures n > 0
    ensures num.IntArg? && num.i > 0 ==> n == num.i
    ensures !(num.IntArg? && num.i > 0) ==> n == 1
  {
    if num.IntArg? && num.i > 0 then num.i else 1
  }

  /** The building step of one item of recovery_data: split the phone text, then
      Record(Name(name), Phone(first token)) or, unless the birthday text contains
      "Not recorded", Record(Name(name), Phone(first token), Birthday(text)). */
  method BuildRecord(e: Entry) returns (record: Record?, toks: seq<string>, status: Status)
    ensures toks == Tokens(e)
    ensures status == (if Built(e).Ok? then Completed else Raised(Built(e).msg))
    ensures record == null <==> status.Raised?
    ensures record != null ==> fresh(record) && record.Valid() && record.Value() == Built(e).value
  {
    toks := Split(Strip(Join(e.phones)));
    var name := new Field(NameKind, e.name);
    var phone, st := Field.New(PhoneKind, Str(toks[0]));
    if st.Raised? {
      return null, toks, st;
    }
    var bDay: Field? := null;
    if !Contains(e.birthday, NOT_RECORDED) {
      var b, st2 := Field.New(BirthdayKind, Str(e.birthday));
      if st2.Raised? {
        return null, toks, st2;
      }
      bDay := b;
    }
    record := new Record(name, phone, bDay);
    status := Completed;
  }

  class AddressBook {
    /** The dict's keys in insertion order. */
    var keys: seq<string>
    /** The dict itself: each name maps to the record added under it. */
    var data: map<string, RecordValue>
    /** AddressBook.N; None until iterator is first called. */
    var pageSize: Option<int>

    function Value(): BookValue
      reads this
    {
      BookValue(keys, data)
    }

    /** Keys are unique and are the dict's keys, and each record sits under its own name. */
    ghost predicate Valid()
      reads this
    {
      ValidBook(Value())
    }

    /** Every record was built from validated fields. */
    ghost predicate RecordsValid()
      reads this
    {
      forall k :: k in data ==> WellFormed(data[k])
    }

    /** The records in dict order, as self.data.values() iterates them. */
    function Contents(): seq<RecordValue>
      reads this
      requires Valid()
    {
      Ordered(Value())
    }

    constructor ()
      ensures Valid() && RecordsValid() && Value() == EmptyBook && pageSize == None
    {
      keys := [];
      data := map[];
      pageSize := None;
    }

    /** add_record: self.data[record.name.value] = record. */
    method AddRecord(r: Record)
      requires Valid()
      modifies this
      ensures Valid() && pageSize == old(pageSize)
      ensures Value() == Insert(old(Value()), r.Value())
      ensures old(RecordsValid()) && r.Valid() ==> RecordsValid()
    {
      InsertEffect(Value(), r.Value());
      if r.name !in data {
        keys := keys + [r.name];
      }
      data := data[r.name := r.Value()];
    }

    /** find_record(value): the renderings of the matching records in dict order, or the text
        'There are no matches'. */
    method FindRecord(q: string) returns (res: FindResult)
      requires Valid()
      ensures res == FindSpec(Contents(), q)
    {
      var matchList: seq<string> := [];
      var i := 0;
      while i < |keys|
        invariant 0 <= i <= |keys|
        invariant matchList == MatchLines(Contents()[..i], q)
      {
        var record := data[keys[i]];
        var phoneNumber := Join(record.phones);
        MatchLinesAppend(Contents()[..i], [record], q);
        assert Contents()[..i + 1] == Contents()[..i] + [record];
        if Contains(record.name, Title(q)) || Contains(phoneNumber, q) {
          matchList := matchList + [Render(record)];
        }
        i := i + 1;
      }
      assert Contents()[..|keys|] == Contents();
      if |matchList| < 1 {
        res := Message(NO_MATCHES);
      } else {
        res := MatchList(matchList);
      }
    }

    /** __iter__ run to the end: every string the generator yields, in order. `counter == N`
        only ever holds for a positive int N. */
    method Iter() returns (ys: seq<string>)
      requires Valid()
      ensures ys == Yields(Renders(Contents()), pageSize)
    {
      ghost var all := Renders(Contents());
      var ks, d, n := keys, data, pageSize;
      var result := "";
      var counter := 0;
      var lenCounter := 0;
      ys := [];
      while lenCounter < |ks|
        invariant 0 <= lenCounter <= |ks| == |all|
        invariant lenCounter < |ks| ==> Scanned(all, lenCounter, n, ys, result, counter)
        invariant lenCounter == |ks| ==> ys == Yields(all, n)
      {
        var line := Render(d[ks[lenCounter]]);
        ghost var ys0, result0, counter0 := ys, result, counter;
        counter := counter + 1;
        lenCounter := lenCounter + 1;
        result := result + line;
        if Some(counter) == n {
          ys := ys + [result];
          result := "";
          counter := 0;
        }
        ScanNext(all, lenCounter - 1, n, ys0, result0, counter0, ys, result, counter);
        if lenCounter == |ks| {
          ys := ys + [result];
          result := "";
          counter := 0;
        }
      }
    }

    /** __next__: the pages it prints, in order; the empty yields are skipped. */
    method Next() returns (pages: seq<string>)
      requires Valid()
      ensures pages == NonEmpty(Yields(Renders(Contents()), pageSize))
    {
      var ys := Iter();
      pages := ShowPages(ys);
    }

    /** iterator(num): set N to num when it is a positive int, else to 1, then show the pages:
        ceil(n / N) of them, holding every record's rendering in dict order. */
    method Iterator(num: Arg) returns (pages: seq<string>)
      requires Valid()
      modifies this`pageSize
      ensures Valid() && pageSize == Some(PageSizeFor(num))
      ensures pages == NonEmpty(Yields(Renders(Contents()), pageSize))
      ensures |pages| == PageCount(|keys|, pageSize.value)
      ensures Concat(pages) == Concat(Renders(Contents()))
    {
      if num.IntArg? && num.i > 0 {
        pageSize := Some(num.i);
      } else {
        pageSize := Some(1);
      }
      pages := Next();
      ShownPages(Renders(Contents()), pageSize.value);
    }

    /** prepare_to_write: the mapping to be dumped as JSON, in dict order. */
    method PrepareToWrite() returns (doc: seq<Entry>)
      requires Valid()
      ensures doc == Export(Contents())
    {
      doc := [];
      var i := 0;
      while i < |keys|
        invariant 0 <= i <= |keys|
        invariant doc == Export(Contents()[..i])
      {
        var record := data[keys[i]];
        var bDay := if record.birthday.None? then NOT_RECORDED else record.birthday.value;
        doc := doc + [Entry(record.name, [Join(record.phones)], bDay)];
        assert Contents()[..i + 1] == Contents()[..i] + [record];
        i := i + 1;
      }
      assert Contents()[..|keys|] == Contents();
    }

    /** The inner loop of recovery_data: `rec.add_phone(Phone(phones[iter]))` for each token
        after the first, with the record already in the book, so that each phone added shows in
        the book's entry for the name. A raise stops the loop and keeps the phones added so far. */
    method AddFurtherPhones(record: Record, toks: seq<string>, ghost b0: BookValue) returns (status: Status)
      requires Valid() && record.Valid() && |toks| >= 1
      requires Value() == Insert(b0, record.Value())
      modifies this, record
      ensures Valid() && pageSize == old(pageSize) && record.Valid()
      ensures (record.Value(), status) == RecoverPhones(old(record.Value()), toks[1..])
      ensures Value() == Insert(b0, record.Value())
      ensures old(RecordsValid()) ==> RecordsValid()
    {
      var it := 1;
      while it < |toks|
        invariant 1 <= it <= |toks|
        invariant Valid() && pageSize == old(pageSize) && record.Valid()
        invariant RecoverPhones(old(record.Value()), toks[1..]) == RecoverPhones(record.Value(), toks[it..])
        invariant Value() == Insert(b0, record.Value())
        invariant old(RecordsValid()) ==> RecordsValid()
      {
        var p, st := Field.New(PhoneKind, Str(toks[it]));
        RecoverPhonesStep(record.Value(), toks, it);
        if st.Raised? {
          return st;
        }
        ghost var prev := record.Value();
        record.AddPhone(p);
        InsertTwice(b0, prev, record.Value());
        AddRecord(record);
        it := it + 1;
      }
      assert toks[it..] == [];
      status := Completed;
    }

    /** One item of recovery_data: build the record, add it to the book, then give it the
        further phones. A raise while building leaves the book as it was; a raise on a further
        phone leaves the record in the book with the phones added before it. */
    method RecoverItem(e: Entry) returns (status: Status)
      requires Valid()
      modifies this
      ensures Valid() && pageSize == old(pageSize)
      ensures (Value(), status) == RecoverEntry(old(Value()), e)
      ensures old(RecordsValid()) ==> RecordsValid()
    {
      var record, toks, st := BuildRecord(e);
      if record == null {
        return st;
      }
      AddRecord(record);
      status := AddFurtherPhones(record, toks, old(Value()));
    }

    /** recovery_data applied to the parsed mapping, item by item, stopping at the first
        raise and keeping what was already added. */
    method RecoveryData(doc: seq<Entry>) returns (status: Status)
      requires Valid()
      modifies this
      ensures Valid() && pageSize == old(pageSize)
      ensures (Value(), status) == Recover(old(Value()), doc)
      ensures old(RecordsValid()) ==> RecordsValid()
    {
      var j := 0;
      while j < |doc|
        invariant 0 <= j <= |doc|
        invariant Valid() && pageSize == old(pageSize)
        invariant Recover(old(Value()), doc) == Recover(Value(), doc[j..])
        invariant old(RecordsValid()) ==> RecordsValid()
      {
        assert doc[j..][0] == doc[j] && doc[j..][1..] == doc[j + 1..];
        status := RecoverItem(doc[j]);
        if status.Raised? {
          return;
        }
        j := j + 1;
      }
      status := Completed;
    }
  }
}
