/** The address book as a value: an insertion-ordered dict from name to record, and the pure
    meaning of add_record, find_record, prepare_to_write and recovery_data over it. */
module BookSpec {
  import opened Wrappers
  import opened Text
  import opened Fields
  import opened Records

  /** The dict's keys in insertion order and the record each key maps to. */
  datatype BookValue = BookValue(keys: seq<string>, recs: map<string, RecordValue>)

  const EmptyBook: BookValue := BookValue([], map[])

  /** Every key appears once, the keys are those of the map, and each record sits under its
      own name. */
  ghost predicate ValidBook(b: BookValue) {
    && NoDuplicates(b.keys)
    && (forall k :: k in b.recs <==> k in b.keys)
    && (forall k :: k in b.recs ==> b.recs[k].name == k)
  }

  /** The records in dict order, as self.data.values() iterates them. */
  function Ordered(b: BookValue): (rs: seq<RecordValue>)
    requires forall k :: k in b.keys ==> k in b.recs
    ensures |rs| == |b.keys|
    ensures forall i :: 0 <= i < |rs| ==> rs[i] == b.recs[b.keys[i]]
  {
    seq(|b.keys|, i requires 0 <= i < |b.keys| => b.recs[b.keys[i]])
  }

  /** add_record: self.data[record.name.value] = record. A new name is appended to the key
      order; an existing name keeps its position and gets the new record. */
  function Insert(b: BookValue, r: RecordValue): BookValue {
    BookValue(if r.name in b.recs then b.keys else b.keys + [r.name], b.recs[r.name := r])
  }

  lemma InsertEffect(b: BookValue, r: RecordValue)
    requires ValidBook(b)
    ensures ValidBook(Insert(b, r))
    ensures Insert(b, r).recs[r.name] == r
    ensures forall k :: k in b.recs && k != r.name ==> Insert(b, r).recs[k] == b.recs[k]
    ensures r.name in b.recs ==>
      Insert(b, r).keys == b.keys && Ordered(Insert(b, r)) == Ordered(b)[IndexOf(b.keys, r.name) := r]
    ensures r.name !in b.recs ==>
      Insert(b, r).keys == b.keys + [r.name] && Ordered(Insert(b, r)) == Ordered(b) + [r]
  {
    var b' := Insert(b, r);
    if r.name in b.recs {
      var i := IndexOf(b.keys, r.name);
      forall j | 0 <= j < |b.keys| ensures Ordered(b')[j] == Ordered(b)[i := r][j] {
        assert b.keys[j] == r.name <==> j == i;
      }
    } else {
      assert Ordered(b') == Ordered(b) + [r];
    }
  }

  /** Storing a record under a name twice keeps only the second: the key order is the one
      the first store made. */
  lemma InsertTwice(b: BookValue, r0: RecordValue, r1: RecordValue)
    requires r0.name == r1.name
    ensures Insert(Insert(b, r0), r1) == Insert(b, r1)
  {
    assert b.recs[r0.name := r0][r1.name := r1] == b.recs[r1.name := r1];
  }

  function IndexOf(ks: seq<string>, k: string): (i: nat)
    requires k in ks && NoDuplicates(ks)
    ensures i < |ks| && ks[i] == k
    ensures forall j :: 0 <= j < |ks| && ks[j] == k ==> j == i
  {
    var i :| 0 <= i < |ks| && ks[i] == k;
    i
  }

  /** str(record) for each record, in order. */
  function Renders(rs: seq<RecordValue>): (ls: seq<string>)
    ensures |ls| == |rs|
    ensures forall i :: 0 <= i < |rs| ==> ls[i] == Render(rs[i]) && ls[i] != ""
  {
    seq(|rs|, i requires 0 <= i < |rs| => Render(rs[i]))
  }

  // ---------------------------------------------------------------------------------------
  // find_record

  const NO_MATCHES: string := "There are no matches"

  /** find_record returns either a list of rendered records or its sentinel text. */
  datatype FindResult = Message(text: string) | MatchList(lines: seq<string>)

  /** The search test: the name contains the title-cased query, or the ", "-joined phones
      contain the query as given. */
  predicate Matches(r: RecordValue, q: string) {
    Contains(r.name, Title(q)) || Contains(Join(r.phones), q)
  }

  /** The renderings of the matching records, in order. */
  function MatchLines(rs: seq<RecordValue>, q: string): seq<string>
    decreases |rs|
  {
    if rs == [] then []
    else (if Matches(rs[0], q) then [Render(rs[0])] else []) + MatchLines(rs[1..], q)
  }

  function FindSpec(rs: seq<RecordValue>, q: string): FindResult {
    var lines := MatchLines(rs, q);
    if |lines| < 1 then Message(NO_MATCHES) else MatchList(lines)
  }

  /** Searching a concatenation searches each part in turn: the order of the book is kept. */
  lemma {:induction false} MatchLinesAppend(a: seq<RecordValue>, b: seq<RecordValue>, q: string)
    ensures MatchLines(a + b, q) == MatchLines(a, q) + MatchLines(b, q)
    decreases |a|
  {
    if a == [] {
      assert a + b == b;
    } else {
      assert (a + b)[1..] == a[1..] + b;
      MatchLinesAppend(a[1..], b, q);
    }
  }

  /** Every line is the rendering of a matching record, and every matching record's rendering
      is a line. */
  lemma {:induction false} MatchLinesExact(rs: seq<RecordValue>, q: string)
    ensures forall i :: 0 <= i < |rs| && Matches(rs[i], q) ==> Render(rs[i]) in MatchLines(rs, q)
    ensures forall line :: line in MatchLines(rs, q) ==>
      exists i :: 0 <= i < |rs| && Matches(rs[i], q) && line == Render(rs[i])
    ensures |MatchLines(rs, q)| <= |rs|
    decreases |rs|
  {
    if rs != [] {
      MatchLinesExact(rs[1..], q);
      forall i | 1 <= i < |rs| ensures rs[i] == rs[1..][i - 1] { }
      forall line | line in MatchLines(rs, q)
        ensures exists i :: 0 <= i < |rs| && Matches(rs[i], q) && line == Render(rs[i])
      {
        if !(Matches(rs[0], q) && line == Render(rs[0])) {
          assert line in MatchLines(rs[1..], q);
          var i :| 0 <= i < |rs[1..]| && Matches(rs[1..][i], q) && line == Render(rs[1..][i]);
          assert rs[i + 1] == rs[1..][i];
        }
      }
    }
  }

  /** The sentinel is returned exactly when no record matches, and a list is never empty. */
  lemma {:induction false} FindSentinel(rs: seq<RecordValue>, q: string)
    ensures FindSpec(rs, q).Message? <==> forall i :: 0 <= i < |rs| ==> !Matches(rs[i], q)
    ensures FindSpec(rs, q).Message? ==> FindSpec(rs, q).text == NO_MATCHES
    ensures FindSpec(rs, q).MatchList? ==> |FindSpec(rs, q).lines| > 0
    decreases |rs|
  {
    MatchLinesExact(rs, q);
    if rs != [] {
      FindSentinel(rs[1..], q);
      forall i | 1 <= i < |rs| ensures rs[i] == rs[1..][i - 1] { }
    }
  }

  // ---------------------------------------------------------------------------------------
  // prepare_to_write and recovery_data

  /** One item of the persisted mapping: 'phones' (a list) and 'birthday' (a text). */
  datatype Entry = Entry(name: string, phones: seq<string>, birthday: string)

  /** prepare_to_write: each name maps to its phones joined into one list element and to its
      birthday text or "Not recorded", in book order. */
  function Export(rs: seq<RecordValue>): (doc: seq<Entry>)
    ensures |doc| == |rs|
    ensures forall i :: 0 <= i < |rs| ==>
      doc[i] == Entry(rs[i].name, [Join(rs[i].phones)], BirthdayText(rs[i].birthday))
  {
    seq(|rs|, i requires 0 <= i < |rs| => Entry(rs[i].name, [Join(rs[i].phones)], BirthdayText(rs[i].birthday)))
  }

  /** str(phones) with '[', ']' and '\'' removed, split on ", ". */
  function Tokens(e: Entry): (t: seq<string>)
    ensures |t| >= 1
  {
    Split(Strip(Join(e.phones)))
  }

  /** The `while iter < len(phones)` loop: each further token becomes Phone(token), raising on
      a non-digit token, and is passed to add_phone. */
  function RecoverPhones(r: RecordValue, toks: seq<string>): (RecordValue, Status)
    decreases |toks|
  {
    if toks == [] then (r, Completed)
    else
      match ValidPhone(Str(toks[0]))
      case Err(m) => (r, Raised(m))
      case Ok(p) => RecoverPhones(r.(phones := WithPhone(r.phones, p)), toks[1..])
  }

  /** The tokens from position i on: a raise at token i, or token i added and the rest to go. */
  lemma RecoverPhonesStep(r: RecordValue, toks: seq<string>, i: nat)
    requires i < |toks|
    ensures ValidPhone(Str(toks[i])).Err? ==>
      RecoverPhones(r, toks[i..]) == (r, Raised(ValidPhone(Str(toks[i])).msg))
    ensures ValidPhone(Str(toks[i])).Ok? ==>
      RecoverPhones(r, toks[i..])
        == RecoverPhones(r.(phones := WithPhone(r.phones, ValidPhone(Str(toks[i])).value)), toks[i + 1..])
  {
    assert toks[i..][0] == toks[i] && toks[i..][1..] == toks[i + 1..];
  }

  /** The record recovery_data builds for one item before its further phones: Phone(first
      token) first, then Birthday(text) unless the text contains "Not recorded"; the first
      validator to reject raises. */
  function Built(e: Entry): (r: Result<RecordValue>)
    ensures r.Ok? ==> r.value.name == e.name && r.value.phones == [Tokens(e)[0]]
    ensures r.Ok? ==> (r.value.birthday.None? <==> Contains(e.birthday, NOT_RECORDED))
    ensures r.Err? ==> r.msg == PHONE_ERROR || r.msg == BIRTHDAY_ERROR
  {
    match ValidPhone(Str(Tokens(e)[0]))
    case Err(m) => Err(m)
    case Ok(p) =>
      if Contains(e.birthday, NOT_RECORDED) then Ok(RecordValue(e.name, [p], None))
      else
        match ValidBirthday(Str(e.birthday))
        case Err(m) => Err(m)
        case Ok(bd) => Ok(RecordValue(e.name, [p], Some(bd)))
  }

  /** One item of recovery_data: a raise while building leaves the book as it was; otherwise
      the record is added to the book before the further phones are added to it, so a bad
      later token leaves the partly filled record in the book. */
  function RecoverEntry(b: BookValue, e: Entry): (BookValue, Status) {
    match Built(e)
    case Err(m) => (b, Raised(m))
    case Ok(r) =>
      var res := RecoverPhones(r, Tokens(e)[1..]);
      (Insert(b, res.0), res.1)
  }

  /** recovery_data over the parsed mapping, item by item, stopping at the first raise. */
  function Recover(b: BookValue, doc: seq<Entry>): (BookValue, Status)
    decreases |doc|
  {
    if doc == [] then (b, Completed)
    else
      var res := RecoverEntry(b, doc[0]);
      if res.1.Raised? then res else Recover(res.0, doc[1..])
  }
}
