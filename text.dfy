/** The string operations of Python that the contact book relies on, restricted to ASCII:
    str.isdigit, str.title, str.find used as a containment test, ", ".join, str.split(", ")
    and the removal of list decoration characters with str.replace. */
module Text {

  predicate IsDigit(c: char) { '0' <= c <= '9' }
  predicate IsUpper(c: char) { 'A' <= c <= 'Z' }
  predicate IsLower(c: char) { 'a' <= c <= 'z' }

  /** A cased character in the sense of str.title: a letter. */
  predicate IsCased(c: char) { IsUpper(c) || IsLower(c) }

  /** str.isdigit: the string is non-empty and every character is a decimal digit. */
  predicate IsDigitString(s: string) {
    |s| > 0 && forall i :: 0 <= i < |s| ==> IsDigit(s[i])
  }

  function ToUpper(c: char): (u: char)
    ensures IsCased(u) <==> IsCased(c)
    ensures !IsLower(u)
  {
    if IsLower(c) then (c as int - 32) as char else c
  }

  function ToLower(c: char): (l: char)
    ensures IsCased(l) <==> IsCased(c)
    ensures !IsUpper(l)
  {
    if IsUpper(c) then (c as int + 32) as char else c
  }

  /** str.title scanning from a position whose preceding character is cased (or not):
      a letter after a letter is lower-cased, any other letter upper-cased. */
  function TitleFrom(s: string, afterCased: bool): (r: string)
    decreases |s|
  {
    if s == [] then []
    else [if afterCased then ToLower(s[0]) else ToUpper(s[0])] + TitleFrom(s[1..], IsCased(s[0]))
  }

  function Title(s: string): string {
    TitleFrom(s, false)
  }

  /** Position-wise description of str.title: each character is upper-cased when it starts
      the string or follows an uncased character, and lower-cased otherwise. */
  lemma {:induction false} TitleFromAt(s: string, afterCased: bool, i: nat)
    requires i < |s|
    ensures |TitleFrom(s, afterCased)| == |s|
    ensures TitleFrom(s, afterCased)[i] ==
      if (if i == 0 then afterCased else IsCased(s[i - 1])) then ToLower(s[i]) else ToUpper(s[i])
    decreases |s|
  {
    if i == 0 {
      if |s| > 1 {
        TitleFromAt(s[1..], IsCased(s[0]), 0);
      }
    } else {
      TitleFromAt(s[1..], IsCased(s[0]), i - 1);
      assert s[1..][i - 1] == s[i];
      if i >= 2 {
        assert s[1..][i - 2] == s[i - 1];
      }
    }
  }

  lemma TitleAt(s: string, i: nat)
    requires i < |s|
    ensures |Title(s)| == |s|
    ensures Title(s)[i] == if i > 0 && IsCased(s[i - 1]) then ToLower(s[i]) else ToUpper(s[i])
  {
    TitleFromAt(s, false, i);
  }

  lemma {:induction false} TitleLength(s: string, afterCased: bool)
    ensures |TitleFrom(s, afterCased)| == |s|
    decreases |s|
  {
    if s != [] {
      TitleLength(s[1..], IsCased(s[0]));
    }
  }

  /** Title-casing a title-cased string changes nothing. */
  lemma TitleIdempotent(s: string)
    ensures Title(Title(s)) == Title(s)
  {
    var t := Title(s);
    TitleLength(s, false);
    TitleLength(t, false);
    forall i | 0 <= i < |s|
      ensures Title(t)[i] == t[i]
    {
      TitleAt(s, i);
      TitleAt(t, i);
      if i > 0 {
        TitleAt(s, i - 1);
      }
    }
  }

  /** str.startswith. */
  predicate StartsWith(s: string, t: string) {
    |t| <= |s| && s[..|t|] == t
  }

  /** str.endswith. */
  predicate EndsWith(s: string, t: string) {
    |t| <= |s| && s[|s| - |t|..] == t
  }

  /** s.find(t) != -1: t occurs somewhere in s (the empty string occurs everywhere). */
  predicate Contains(s: string, t: string)
    decreases |s|
  {
    StartsWith(s, t) || (|s| > 0 && Contains(s[1..], t))
  }

  /** Containment holds exactly when t starts at some position of s. */
  lemma {:induction false} ContainsAt(s: string, t: string)
    ensures Contains(s, t) <==> exists i :: 0 <= i <= |s| && StartsWith(s[i..], t)
    decreases |s|
  {
    assert s[0..] == s;
    if |s| > 0 {
      ContainsAt(s[1..], t);
      if Contains(s[1..], t) {
        var i :| 0 <= i <= |s[1..]| && StartsWith(s[1..][i..], t);
        assert s[1..][i..] == s[i + 1..];
      }
      if exists i :: 0 <= i <= |s| && StartsWith(s[i..], t) {
        var i :| 0 <= i <= |s| && StartsWith(s[i..], t);
        if i > 0 {
          assert s[1..][i - 1..] == s[i..];
        }
      }
    } else {
      if exists i :: 0 <= i <= |s| && StartsWith(s[i..], t) {
        var i :| 0 <= i <= |s| && StartsWith(s[i..], t);
        assert s[i..] == s;
      }
    }
  }

  const SEP: string := ", "

  /** ", ".join(xs). */
  function Join(xs: seq<string>): string
    decreases |xs|
  {
    if xs == [] then ""
    else if |xs| == 1 then xs[0]
    else xs[0] + SEP + Join(xs[1..])
  }

  /** s.split(", "): cut at every occurrence of the separator, scanning left to right;
      the result always has at least one piece. */
  function Split(s: string): (r: seq<string>)
    ensures |r| >= 1
    decreases |s|
  {
    if |s| >= 2 && s[0] == ',' && s[1] == ' ' then [""] + Split(s[2..])
    else if s == [] then [""]
    else
      var rest := Split(s[1..]);
      [[s[0]] + rest[0]] + rest[1..]
  }

  predicate NoComma(s: string) {
    forall i :: 0 <= i < |s| ==> s[i] != ','
  }

  lemma {:induction false} SplitWhole(a: string)
    requires NoComma(a)
    ensures Split(a) == [a]
    decreases |a|
  {
    if a != [] {
      SplitWhole(a[1..]);
      assert [a[0]] + a[1..] == a;
    }
  }

  lemma {:induction false} SplitAfter(a: string, t: string)
    requires NoComma(a)
    ensures Split(a + SEP + t) == [a] + Split(t)
    decreases |a|
  {
    var s := a + SEP + t;
    if a == [] {
      assert s[2..] == t;
    } else {
      assert s[1..] == a[1..] + SEP + t;
      SplitAfter(a[1..], t);
      assert [s[0]] + a[1..] == a;
    }
  }

  /** Splitting on ", " undoes joining with ", " when no piece contains a comma and there is
      at least one piece. */
  lemma {:induction false} SplitJoin(xs: seq<string>)
    requires |xs| > 0
    requires forall k :: 0 <= k < |xs| ==> NoComma(xs[k])
    ensures Split(Join(xs)) == xs
    decreases |xs|
  {
    if |xs| == 1 {
      SplitWhole(xs[0]);
    } else {
      SplitJoin(xs[1..]);
      SplitAfter(xs[0], Join(xs[1..]));
    }
  }

  /** The characters that str(list) adds around its elements and that recovery removes. */
  predicate IsDecoration(c: char) { c == '[' || c == ']' || c == '\'' }

  predicate Undecorated(s: string) {
    forall i :: 0 <= i < |s| ==> !IsDecoration(s[i])
  }

  /** Remove every '[', ']' and '\'' character, as the chain of str.replace calls does. */
  function Strip(s: string): (r: string)
    ensures Undecorated(r)
    decreases |s|
  {
    if s == [] then []
    else (if IsDecoration(s[0]) then [] else [s[0]]) + Strip(s[1..])
  }

  lemma {:induction false} StripUndecorated(s: string)
    requires Undecorated(s)
    ensures Strip(s) == s
    decreases |s|
  {
    if s != [] {
      StripUndecorated(s[1..]);
    }
  }

  /** Joining digit strings gives a text made of digits, commas and spaces only. */
  lemma {:induction false} JoinDigitsUndecorated(xs: seq<string>)
    requires forall k :: 0 <= k < |xs| ==> IsDigitString(xs[k])
    ensures Undecorated(Join(xs))
    decreases |xs|
  {
    if |xs| > 1 {
      JoinDigitsUndecorated(xs[1..]);
      var j := xs[0] + SEP + Join(xs[1..]);
      forall i | 0 <= i < |j| ensures !IsDecoration(j[i]) {
        if i < |xs[0]| {
          assert j[i] == xs[0][i];
        } else if i >= |xs[0]| + 2 {
          assert j[i] == Join(xs[1..])[i - |xs[0]| - 2];
        }
      }
    }
  }

  /** The concatenation of a sequence of strings ("".join). */
  function Concat(xs: seq<string>): string
    decreases |xs|
  {
    if xs == [] then "" else xs[0] + Concat(xs[1..])
  }

  lemma {:induction false} ConcatAppend(a: seq<string>, b: seq<string>)
    ensures Concat(a + b) == Concat(a) + Concat(b)
    decreases |a|
  {
    if a != [] {
      assert (a + b)[1..] == a[1..] + b;
      ConcatAppend(a[1..], b);
    } else {
      assert a + b == b;
    }
  }

  /** Regrouping a concatenation around one element. */
  lemma AppendAssoc<T>(a: seq<T>, x: T, t: seq<T>)
    ensures (a + [x]) + t == a + ([x] + t)
  {
  }
}
