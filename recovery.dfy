/** What recovery_data rebuilds from what prepare_to_write produced: the same records in the
    same order, with each phone list deduplicated, as long as every record has a phone. */
module Recovery {
  import opened Wrappers
  import opened Text
  import opened Fields
  import opened Records
  import opened BookSpec

  /** The phone list add_phone builds when it is given ps one after another. */
  function AddAll(acc: seq<string>, ps: seq<string>): seq<string>
    decreases |ps|
  {
    if ps == [] then acc else AddAll(WithPhone(acc, ps[0]), ps[1..])
  }

  /** The phones in first-occurrence order, each once. */
  function Dedup(ps: seq<string>): seq<string> {
    AddAll([], ps)
  }

  lemma {:induction false} AddAllSubset(acc: seq<string>, ps: seq<string>)
    ensures forall x :: x in AddAll(acc, ps) <==> x in acc || x in ps
    ensures NoDuplicates(acc) ==> NoDuplicates(AddAll(acc, ps))
    ensures (forall x :: x in ps ==> x !in acc) && NoDuplicates(ps) ==> AddAll(acc, ps) == acc + ps
    decreases |ps|
  {
    if ps != [] {
      AddPhoneEffect(acc, ps[0]);
      AddAllSubset(WithPhone(acc, ps[0]), ps[1..]);
      assert ps == [ps[0]] + ps[1..];
      if (forall x :: x in ps ==> x !in acc) && NoDuplicates(ps) {
        assert forall x :: x in ps[1..] ==> x != ps[0];
        AppendAssoc(acc, ps[0], ps[1..]);
      }
    }
  }

  /** Deduplication keeps exactly the values of the list, once each, and changes nothing in a
      list that has no duplicates. */
  lemma DedupEffect(ps: seq<string>)
    ensures forall x :: x in Dedup(ps) <==> x in ps
    ensures NoDuplicates(Dedup(ps))
    ensures NoDuplicates(ps) ==> Dedup(ps) == ps
  {
    AddAllSubset([], ps);
  }

  /** The phones with each value that already occurred earlier dropped: ps[i] is kept exactly
      when ps[i] !in ps[..i], and the kept ones stay in their original order. */
  function KeepFirst(ps: seq<string>): seq<string>
    decreases |ps|
  {
    if ps == [] then []
    else
      var init := ps[..|ps| - 1];
      var last := ps[|ps| - 1];
      if last in init then KeepFirst(init) else KeepFirst(init) + [last]
  }

  lemma {:induction false} KeepFirstValues(ps: seq<string>)
    ensures forall x :: x in KeepFirst(ps) <==> x in ps
    decreases |ps|
  {
    if ps != [] {
      KeepFirstValues(ps[..|ps| - 1]);
      assert ps == ps[..|ps| - 1] + [ps[|ps| - 1]];
    }
  }

  /** Continuing the add_phone fold over ps from the first occurrences of q gives the first
      occurrences of q + ps. */
  lemma {:induction false} AddAllKeepFirst(q: seq<string>, ps: seq<string>)
    ensures AddAll(KeepFirst(q), ps) == KeepFirst(q + ps)
    decreases |ps|
  {
    if ps == [] {
      assert q + ps == q;
    } else {
      var q' := q + [ps[0]];
      assert q'[..|q'| - 1] == q;
      KeepFirstValues(q);
      assert WithPhone(KeepFirst(q), ps[0]) == KeepFirst(q');
      AddAllKeepFirst(q', ps[1..]);
      AppendAssoc(q, ps[0], ps[1..]);
      assert [ps[0]] + ps[1..] == ps;
    }
  }

  /** Recovery's deduplication keeps the first occurrence of each phone, in the original
      order, and drops the later repeats. */
  lemma DedupKeepsFirst(ps: seq<string>)
    ensures Dedup(ps) == KeepFirst(ps)
  {
    AddAllKeepFirst([], ps);
    assert [] + ps == ps;
  }

  /** The record with its phone list deduplicated. */
  function DedupRecord(r: RecordValue): RecordValue {
    r.(phones := Dedup(r.phones))
  }

  /** The first j records of b, deduplicated: the book recovery has built after j items. */
  function Prefix(b: BookValue, j: nat): (p: BookValue)
    requires ValidBook(b) && j <= |b.keys|
    ensures p.keys == b.keys[..j]
  {
    BookValue(b.keys[..j], map k | k in b.keys[..j] :: DedupRecord(b.recs[k]))
  }

  /** The whole book with every phone list deduplicated. */
  function Deduped(b: BookValue): BookValue
    requires ValidBook(b)
  {
    Prefix(b, |b.keys|)
  }

  /** Records built by the fields' validators. */
  ghost predicate AllWellFormed(b: BookValue) {
    forall k :: k in b.recs ==> WellFormed(b.recs[k])
  }

  /** The text recovery reads for a phone list with at least one phone is split back into
      exactly that list. */
  lemma TokensOfExport(r: RecordValue)
    requires WellFormed(r) && |r.phones| > 0
    ensures Tokens(Export([r])[0]) == r.phones
  {
    var ps := r.phones;
    JoinDigitsUndecorated(ps);
    StripUndecorated(Join(ps));
    forall k | 0 <= k < |ps| ensures NoComma(ps[k]) {
      assert IsDigitString(ps[k]);
    }
    SplitJoin(ps);
  }

  /** A text is never found inside a shorter one. */
  lemma {:induction false} NotContainsLonger(s: string, t: string)
    requires |t| > |s|
    ensures !Contains(s, t)
    decreases |s|
  {
    if |s| > 0 {
      NotContainsLonger(s[1..], t);
    }
  }

  /** The further tokens, all digit strings, are each passed to add_phone without a raise. */
  lemma {:induction false} RecoverPhonesDigits(r: RecordValue, toks: seq<string>)
    requires forall i :: 0 <= i < |toks| ==> IsDigitString(toks[i])
    ensures RecoverPhones(r, toks) == (r.(phones := AddAll(r.phones, toks)), Completed)
    decreases |toks|
  {
    if toks != [] {
      RecoverPhonesDigits(r.(phones := WithPhone(r.phones, toks[0])), toks[1..]);
    }
  }

  /** Recovering the exported item of a record with a phone rebuilds that record with its
      phones deduplicated and inserts it. */
  lemma RecoverEntryExport(b: BookValue, r: RecordValue)
    requires WellFormed(r) && |r.phones| > 0
    ensures RecoverEntry(b, Export([r])[0]) == (Insert(b, DedupRecord(r)), Completed)
  {
    var e := Export([r])[0];
    var ps := r.phones;
    TokensOfExport(r);
    assert IsDigitString(ps[0]);
    assert forall i :: 0 <= i < |ps[1..]| ==> IsDigitString(ps[1..][i]) by {
      forall i | 0 <= i < |ps[1..]| ensures IsDigitString(ps[1..][i]) {
        assert ps[1..][i] == ps[i + 1];
      }
    }
    assert WithPhone([], ps[0]) == [ps[0]];
    assert Dedup(ps) == AddAll([ps[0]], ps[1..]);
    if r.birthday.None? {
      assert StartsWith(e.birthday, NOT_RECORDED);
      RecoverPhonesDigits(RecordValue(r.name, [ps[0]], None), ps[1..]);
    } else {
      var v := r.birthday.value;
      var d :| ValidDate(d) && RenderDate(d) == v;
      NotContainsLonger(v, NOT_RECORDED);
      IsoDateStoredUnchanged(v);
      RecoverPhonesDigits(RecordValue(r.name, [ps[0]], Some(v)), ps[1..]);
    }
  }

  /** A record without phones is exported with the empty phone text, on which Phone(...)
      raises: recovery stops there and the book is unchanged. */
  lemma RecoverZeroPhones(b: BookValue, r: RecordValue)
    requires r.phones == []
    ensures Export([r])[0].phones == [""]
    ensures RecoverEntry(b, Export([r])[0]) == (b, Raised(PHONE_ERROR))
  {
    assert Strip("") == "";
    assert Tokens(Export([r])[0]) == [""];
  }

  /** One item further: the prefix book grows by the next record, deduplicated. */
  lemma PrefixStep(b: BookValue, j: nat)
    requires ValidBook(b) && j < |b.keys|
    ensures Insert(Prefix(b, j), DedupRecord(b.recs[b.keys[j]])) == Prefix(b, j + 1)
  {
    var k := b.keys[j];
    var p, p' := Prefix(b, j), Prefix(b, j + 1);
    assert b.keys[..j + 1] == b.keys[..j] + [k];
    assert k !in b.keys[..j];
    var lhs := Insert(p, DedupRecord(b.recs[k]));
    assert lhs.keys == p'.keys;
    forall x ensures x in lhs.recs <==> x in p'.recs {
    }
    forall x | x in lhs.recs ensures lhs.recs[x] == p'.recs[x] {
    }
    assert lhs.recs == p'.recs;
  }

  /** Recovering items j..m of the export of b, when each of those records has a phone, turns
      the book of the first j records into the book of the first m. */
  lemma {:induction false} RecoverRun(b: BookValue, j: nat, m: nat)
    requires ValidBook(b) && AllWellFormed(b) && j <= m <= |b.keys|
    requires forall i :: j <= i < m ==> |b.recs[b.keys[i]].phones| > 0
    ensures Recover(Prefix(b, j), Export(Ordered(b))[j..]) == Recover(Prefix(b, m), Export(Ordered(b))[m..])
    decreases m - j
  {
    if j < m {
      var doc := Export(Ordered(b));
      var r := b.recs[b.keys[j]];
      assert doc[j..][0] == Export([r])[0];
      RecoverEntryExport(Prefix(b, j), r);
      PrefixStep(b, j);
      assert doc[j..][1..] == doc[j + 1..];
      RecoverRun(b, j + 1, m);
    }
  }

  /** The round trip: recovery from an empty book of what prepare_to_write produced rebuilds
      every record, in order, with its phones deduplicated, provided each record has a phone. */
  lemma RecoverExport(b: BookValue)
    requires ValidBook(b) && AllWellFormed(b)
    requires forall k :: k in b.recs ==> |b.recs[k].phones| > 0
    ensures Recover(EmptyBook, Export(Ordered(b))) == (Deduped(b), Completed)
  {
    assert Prefix(b, 0) == EmptyBook;
    assert Export(Ordered(b))[0..] == Export(Ordered(b));
    RecoverRun(b, 0, |b.keys|);
    assert Export(Ordered(b))[|b.keys|..] == [];
  }

  /** When no record holds a repeated phone the round trip gives back the very same book. */
  lemma RecoverExportExact(b: BookValue)
    requires ValidBook(b) && AllWellFormed(b)
    requires forall k :: k in b.recs ==> |b.recs[k].phones| > 0 && NoDuplicates(b.recs[k].phones)
    ensures Recover(EmptyBook, Export(Ordered(b))) == (b, Completed)
  {
    RecoverExport(b);
    DedupedUnchanged(b);
  }

  lemma DedupedUnchanged(b: BookValue)
    requires ValidBook(b)
    requires forall k :: k in b.recs ==> NoDuplicates(b.recs[k].phones)
    ensures Deduped(b) == b
  {
    var d := Deduped(b);
    assert b.keys[..|b.keys|] == b.keys;
    forall k | k in d.recs ensures d.recs[k] == b.recs[k] {
      DedupEffect(b.recs[k].phones);
    }
    assert d.recs == b.recs;
  }

  /** If the record at position m is the first one without a phone, recovery raises there and
      leaves the book holding the first m records. */
  lemma RecoverStopsAtZeroPhones(b: BookValue, m: nat)
    requires ValidBook(b) && AllWellFormed(b) && m < |b.keys|
    requires forall i :: 0 <= i < m ==> |b.recs[b.keys[i]].phones| > 0
    requires b.recs[b.keys[m]].phones == []
    ensures Recover(EmptyBook, Export(Ordered(b))) == (Prefix(b, m), Raised(PHONE_ERROR))
  {
    var doc := Export(Ordered(b));
    assert Prefix(b, 0) == EmptyBook;
    assert doc[0..] == doc;
    RecoverRun(b, 0, m);
    assert doc[m..][0] == Export([b.recs[b.keys[m]]])[0];
    RecoverZeroPhones(Prefix(b, m), b.recs[b.keys[m]]);
  }
}
