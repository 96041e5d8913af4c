/** The scenario of the script's entry point: five records Bill_1 .. Bill_5, Bill_1 given a
    second phone and then an edited one, all added to a book, and a search for "bil". */
module Demo {
  import opened Wrappers
  import opened Text
  import opened Fields
  import opened Records
  import opened BookSpec

  /** rec_1 starts with 123456789, gets 1234567890 from add_phone, and edit_phone replaces
      123456789 by 0454054 at the end of the list. */
  lemma DemoBill1Phones()
    ensures WithPhone(["123456789"], "1234567890") == ["123456789", "1234567890"]
    ensures Edited(["123456789", "1234567890"], "123456789", "0454054") == ["1234567890", "0454054"]
  {
    assert "1234567890" != "123456789";
    var ps := ["123456789", "1234567890"];
    assert ps[0] == "123456789";
    assert RemoveFirst(ps, "123456789") == ["1234567890"];
  }

  function DemoRecords(): seq<RecordValue> {
    [ RecordValue("Bill_1", ["1234567890", "0454054"], Some("2000-08-19")),
      RecordValue("Bill_2", ["123456789"], None),
      RecordValue("Bill_3", ["1234567890"], None),
      RecordValue("Bill_4", ["1234567890"], None),
      RecordValue("Bill_5", ["1234567890"], None) ]
  }

  /** The book after add_record of each record in turn. */
  function InsertAll(b: BookValue, rs: seq<RecordValue>): BookValue
    decreases |rs|
  {
    if rs == [] then b else InsertAll(Insert(b, rs[0]), rs[1..])
  }

  /** The names of rs are distinct and none is yet a key of b. */
  ghost predicate FreshNames(b: BookValue, rs: seq<RecordValue>) {
    && (forall i :: 0 <= i < |rs| ==> rs[i].name !in b.recs)
    && (forall i, j :: 0 <= i < j < |rs| ==> rs[i].name != rs[j].name)
  }

  lemma FreshTail(b: BookValue, rs: seq<RecordValue>)
    requires FreshNames(b, rs) && rs != []
    ensures FreshNames(Insert(b, rs[0]), rs[1..])
  {
    var tl := rs[1..];
    forall i | 0 <= i < |tl| ensures tl[i].name !in Insert(b, rs[0]).recs {
      assert tl[i] == rs[i + 1];
    }
  }

  /** Adding records whose names are new and distinct appends them, in order, to what the
      book iterates. */
  lemma {:induction false} InsertAllFresh(b: BookValue, rs: seq<RecordValue>)
    requires ValidBook(b) && FreshNames(b, rs)
    ensures ValidBook(InsertAll(b, rs))
    ensures Ordered(InsertAll(b, rs)) == Ordered(b) + rs
    decreases |rs|
  {
    if rs != [] {
      var b', tl := Insert(b, rs[0]), rs[1..];
      InsertEffect(b, rs[0]);
      FreshTail(b, rs);
      InsertAllFresh(b', tl);
      assert InsertAll(b, rs) == InsertAll(b', tl);
      assert Ordered(b') == Ordered(b) + [rs[0]];
      assert rs == [rs[0]] + tl;
      AppendAssoc(Ordered(b), rs[0], tl);
    }
  }

  /** The book after ab.add_record(rec_1) .. ab.add_record(rec_5): the five records in the
      order they were added. */
  lemma DemoBookContents()
    ensures ValidBook(InsertAll(EmptyBook, DemoRecords()))
    ensures Ordered(InsertAll(EmptyBook, DemoRecords())) == DemoRecords()
  {
    InsertAllFresh(EmptyBook, DemoRecords());
    assert Ordered(EmptyBook) == [];
  }

  /** The query is title-cased before it is looked for in the names. */
  lemma TitleBil()
    ensures Title("bil") == "Bil"
  {
    assert Title("bil") == [ToUpper('b')] + TitleFrom("il", true);
    assert TitleFrom("il", true) == [ToLower('i')] + TitleFrom("l", true);
  }

  /** A name that starts with "Bil" matches the query "bil". */
  lemma MatchesBil(r: RecordValue)
    requires StartsWith(r.name, "Bil")
    ensures Matches(r, "bil")
  {
    TitleBil();
  }

  /** find_record('bil') returns the renderings of all five records, in the order they were
      added. */
  lemma DemoFind()
    ensures FindSpec(DemoRecords(), "bil") == MatchList(Renders(DemoRecords()))
  {
    var rs := DemoRecords();
    forall i | 0 <= i < |rs| ensures Matches(rs[i], "bil") {
      MatchesBil(rs[i]);
    }
    AllMatch(rs, "bil");
  }

  lemma {:induction false} AllMatch(rs: seq<RecordValue>, q: string)
    requires forall i :: 0 <= i < |rs| ==> Matches(rs[i], q)
    ensures MatchLines(rs, q) == Renders(rs)
    ensures |rs| > 0 ==> FindSpec(rs, q) == MatchList(Renders(rs))
    decreases |rs|
  {
    if rs != [] {
      AllMatch(rs[1..], q);
      assert Renders(rs) == [Render(rs[0])] + Renders(rs[1..]);
    }
  }
}
