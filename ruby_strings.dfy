/** The Ruby core string operations that address_to_location.rb relies on:
    `String#split` with a one-character delimiter, `String#strip`,
    `String#downcase`/`String#upcase`, `Array#join` and `String#gsub` with an
    empty replacement.

    The functions carry only cheap contracts; what they compute is stated by
    the lemmas beside them, which callers invoke where they need the facts. */
module RubyStrings {

  /** The whitespace that `String#strip` removes: NUL, horizontal tab, line
      feed, vertical tab, form feed, carriage return and space. */
  predicate IsSpace(c: char) {
    c == '\0' || c == '\t' || c == '\n' || c == '\U{000B}' || c == '\U{000C}' || c == '\r' || c == ' '
  }

  /** `String#lstrip`. */
  function StripLeft(s: string): (r: string)
    ensures |r| <= |s|
  {
    if s != [] && IsSpace(s[0]) then StripLeft(s[1..]) else s
  }

  /** `String#rstrip`. */
  function StripRight(s: string): (r: string)
    ensures |r| <= |s|
  {
    if s != [] && IsSpace(s[|s| - 1]) then StripRight(s[..|s| - 1]) else s
  }

  /** `String#strip`. */
  function Strip(s: string): (r: string)
    ensures |r| <= |s|
  {
    StripRight(StripLeft(s))
  }

  /** `lstrip` keeps the longest suffix that does not start with whitespace. */
  lemma {:induction false} StripLeftSpec(s: string)
    ensures StripLeft(s) == s[|s| - |StripLeft(s)|..]
    ensures forall k :: 0 <= k < |s| - |StripLeft(s)| ==> IsSpace(s[k])
    ensures StripLeft(s) != [] ==> !IsSpace(StripLeft(s)[0])
  {
    if s != [] && IsSpace(s[0]) {
      StripLeftSpec(s[1..]);
    }
  }

  /** `rstrip` keeps the longest prefix that does not end with whitespace. */
  lemma {:induction false} StripRightSpec(s: string)
    ensures StripRight(s) == s[..|StripRight(s)|]
    ensures forall k :: |StripRight(s)| <= k < |s| ==> IsSpace(s[k])
    ensures StripRight(s) != [] ==> !IsSpace(StripRight(s)[|StripRight(s)| - 1])
  {
    if s != [] && IsSpace(s[|s| - 1]) {
      StripRightSpec(s[..|s| - 1]);
    }
  }

  /** What lies beyond a prefix of a suffix of `s` is read off `s` itself. */
  lemma Infix(s: string, t: string, r: string, i: nat)
    requires i <= |s| && t == s[i..]
    requires |r| <= |t| && r == t[..|r|]
    ensures i + |r| <= |s| && r == s[i..i + |r|]
    ensures forall k :: i + |r| <= k < |s| ==> s[k] == t[k - i]
  {
  }

  /** `strip` is a slice of `s` starting after the leading whitespace. */
  lemma StripSlice(s: string)
    ensures |s| - |StripLeft(s)| + |Strip(s)| <= |s|
    ensures Strip(s) == s[|s| - |StripLeft(s)|..|s| - |StripLeft(s)| + |Strip(s)|]
  {
    var t := StripLeft(s);
    StripLeftSpec(s);
    StripRightSpec(t);
    Infix(s, t, StripRight(t), |s| - |t|);
  }

  /** What `strip` cuts off at the end is whitespace. */
  lemma StripTrailing(s: string)
    ensures forall k :: |s| - |StripLeft(s)| + |Strip(s)| <= k < |s| ==> IsSpace(s[k])
  {
    var t := StripLeft(s);
    var i := |s| - |t|;
    var r := StripRight(t);
    StripLeftSpec(s);
    StripRightSpec(t);
    Infix(s, t, r, i);
    forall k | i + |r| <= k < |s| ensures IsSpace(s[k]) {
      assert s[k] == t[k - i];
    }
  }

  /** What `strip` keeps neither starts nor ends with whitespace. */
  lemma StripEnds(s: string)
    ensures Strip(s) != [] ==> !IsSpace(Strip(s)[0]) && !IsSpace(Strip(s)[|Strip(s)| - 1])
  {
    var t := StripLeft(s);
    var r := StripRight(t);
    StripLeftSpec(s);
    StripRightSpec(t);
    if r != [] {
      assert r[0] == t[0];
    }
  }

  /** `strip` keeps the infix of `s` between its leading and its trailing
      whitespace: everything cut off is whitespace, and what is kept neither
      starts nor ends with whitespace. */
  lemma StripSpec(s: string)
    ensures var r, i := Strip(s), |s| - |StripLeft(s)|;
      && i + |r| <= |s|
      && r == s[i..i + |r|]
      && (forall k :: 0 <= k < i ==> IsSpace(s[k]))
      && (forall k :: i + |r| <= k < |s| ==> IsSpace(s[k]))
      && (r != [] ==> !IsSpace(r[0]) && !IsSpace(r[|r| - 1]))
  {
    StripLeftSpec(s);
    StripSlice(s);
    StripTrailing(s);
    StripEnds(s);
  }

  /** Every character of a stripped string occurs in the original. */
  lemma StripChars(s: string)
    ensures forall c :: c in Strip(s) ==> c in s
  {
    StripSpec(s);
  }

  /** Stripping a string twice is stripping it once. */
  lemma StripIdempotent(s: string)
    ensures Strip(Strip(s)) == Strip(s)
  {
    var t := Strip(s);
    StripSpec(s);
    assert StripLeft(t) == t;
    assert StripRight(t) == t;
  }

  predicate IsUpper(c: char) { 'A' <= c <= 'Z' }

  predicate IsLower(c: char) { 'a' <= c <= 'z' }

  function DowncaseChar(c: char): (d: char)
    ensures !IsUpper(d)
    ensures IsUpper(c) ==> IsLower(d)
    ensures !IsUpper(c) ==> d == c
  {
    if IsUpper(c) then (c as int + 32) as char else c
  }

  function UpcaseChar(c: char): (d: char)
    ensures !IsLower(d)
    ensures IsLower(c) ==> IsUpper(d)
    ensures !IsLower(c) ==> d == c
  {
    if IsLower(c) then (c as int - 32) as char else c
  }

  /** `String#downcase`, restricted to the ASCII letters. */
  function Downcase(s: string): (r: string)
    ensures |r| == |s|
  {
    seq(|s|, i requires 0 <= i < |s| => DowncaseChar(s[i]))
  }

  /** `String#upcase`, restricted to the ASCII letters. */
  function Upcase(s: string): (r: string)
    ensures |r| == |s|
  {
    seq(|s|, i requires 0 <= i < |s| => UpcaseChar(s[i]))
  }

  /** A down-cased string has no upper-case letter, and every character that
      is not an upper-case letter is kept where it was. */
  lemma DowncaseSpec(s: string)
    ensures forall i :: 0 <= i < |s| ==> !IsUpper(Downcase(s)[i])
    ensures forall i :: 0 <= i < |s| && !IsUpper(s[i]) ==> Downcase(s)[i] == s[i]
    ensures forall c :: !IsUpper(c) && !IsLower(c) ==> (c in Downcase(s) <==> c in s)
    ensures forall i :: 0 <= i < |s| && IsUpper(s[i]) ==>
              IsLower(Downcase(s)[i]) && Downcase(s)[i] as int - 'a' as int == s[i] as int - 'A' as int
  {
    var r := Downcase(s);
    forall c | !IsUpper(c) && !IsLower(c) ensures c in r <==> c in s {
      if c in r {
        var i :| 0 <= i < |r| && r[i] == c;
        assert s[i] == c;
      }
      if c in s {
        var i :| 0 <= i < |s| && s[i] == c;
        assert r[i] == c;
      }
    }
  }

  /** An up-cased string has no lower-case letter, every character that is
      not a lower-case letter is kept where it was, and a lower-case letter
      becomes the same letter of the alphabet in upper case. */
  lemma UpcaseSpec(s: string)
    ensures forall i :: 0 <= i < |s| ==> !IsLower(Upcase(s)[i])
    ensures forall i :: 0 <= i < |s| && !IsLower(s[i]) ==> Upcase(s)[i] == s[i]
    ensures forall i :: 0 <= i < |s| && IsLower(s[i]) ==>
              IsUpper(Upcase(s)[i]) && Upcase(s)[i] as int - 'A' as int == s[i] as int - 'a' as int
  {
  }

  /** Upper-casing forgets an earlier lower-casing: the upper-case form of a
      down-cased name is the upper-case form of the original name. */
  lemma UpcaseDowncase(s: string)
    ensures Upcase(Downcase(s)) == Upcase(s)
  {
    forall i | 0 <= i < |s|
      ensures Upcase(Downcase(s))[i] == Upcase(s)[i]
    {
      var c := s[i];
      if IsUpper(c) {
        assert Downcase(s)[i] == (c as int + 32) as char;
      }
    }
  }

  /** Upper-casing works character by character, so it distributes over concatenation. */
  lemma UpcaseAppend(a: string, b: string)
    ensures Upcase(a + b) == Upcase(a) + Upcase(b)
  {
    var r := Upcase(a + b);
    forall i | 0 <= i < |r|
      ensures r[i] == (Upcase(a) + Upcase(b))[i]
    {
      if i < |a| { assert (a + b)[i] == a[i]; } else { assert (a + b)[i] == b[i - |a|]; }
    }
  }

  /** A string without lower-case letters is its own upper-case form. */
  lemma UpcaseFixed(s: string)
    requires forall i :: 0 <= i < |s| ==> !IsLower(s[i])
    ensures Upcase(s) == s
  {
  }

  /** Upper-casing brings in no character that is not an upper-case letter. */
  lemma UpcaseKeepsAbsent(s: string, c: char)
    requires c !in s && !IsUpper(c)
    ensures c !in Upcase(s)
  {
  }

  /** Every string of a sequence upper-cased (`map(&:upcase)`). */
  function UpcaseAll(ps: seq<string>): (r: seq<string>)
    ensures |r| == |ps|
  {
    seq(|ps|, i requires 0 <= i < |ps| => Upcase(ps[i]))
  }

  /** The fields of `s` between the occurrences of `sep`, empty ones included. */
  function Fields(s: string, sep: char): (r: seq<string>)
    ensures |r| >= 1
  {
    if s == [] then [""]
    else
      var rest := Fields(s[1..], sep);
      if s[0] == sep then [""] + rest
      else [[s[0]] + rest[0]] + rest[1..]
  }

  /** No field holds the separator. */
  lemma {:induction false} FieldsSpec(s: string, sep: char)
    ensures forall k :: 0 <= k < |Fields(s, sep)| ==> sep !in Fields(s, sep)[k]
  {
    if s != [] {
      FieldsSpec(s[1..], sep);
    }
  }

  /** `Array#join(sep)`: the parts with `sep` between consecutive ones. */
  function Join(parts: seq<string>, sep: char): (r: string)
  {
    if |parts| == 0 then ""
    else if |parts| == 1 then parts[0]
    else parts[0] + [sep] + Join(parts[1..], sep)
  }

  /** Joining the fields of a string with the separator gives the string back. */
  lemma {:induction false} JoinFields(s: string, sep: char)
    ensures Join(Fields(s, sep), sep) == s
  {
    if s != [] {
      var rest := Fields(s[1..], sep);
      JoinFields(s[1..], sep);
      if s[0] == sep {
        assert Fields(s, sep) == [""] + rest;
        assert ([""] + rest)[1..] == rest;
      } else if |rest| > 1 {
        var f := Fields(s, sep);
        assert f == [[s[0]] + rest[0]] + rest[1..];
        assert f[1..] == rest[1..];
        assert Join(rest, sep) == rest[0] + [sep] + Join(rest[1..], sep);
      }
    }
  }

  /** A separator-free prefix glues onto the first field of what follows it. */
  lemma {:induction false} FieldsPrefix(a: string, b: string, sep: char)
    requires sep !in a
    ensures Fields(a + b, sep) == [a + Fields(b, sep)[0]] + Fields(b, sep)[1..]
  {
    if a != [] {
      FieldsPrefix(a[1..], b, sep);
      var f := Fields(b, sep);
      assert (a + b)[1..] == a[1..] + b;
      var rest := Fields(a[1..] + b, sep);
      assert rest == [a[1..] + f[0]] + f[1..];
      assert (a + b)[0] == a[0] != sep;
      assert Fields(a + b, sep) == [[a[0]] + rest[0]] + rest[1..];
      assert [a[0]] + (a[1..] + f[0]) == a + f[0];
    } else {
      var f := Fields(b, sep);
      assert a + b == b;
      assert a + f[0] == f[0];
      assert f == [f[0]] + f[1..];
    }
  }

  /** A leading separator opens an empty first field. */
  lemma FieldsSeparator(b: string, sep: char)
    ensures Fields([sep] + b, sep) == [""] + Fields(b, sep)
  {
    assert ([sep] + b)[1..] == b;
  }

  /** A string without the separator is a single field. */
  lemma FieldsSingle(a: string, sep: char)
    requires sep !in a
    ensures Fields(a, sep) == [a]
  {
    FieldsPrefix(a, "", sep);
    assert a + "" == a;
  }

  /** A separator-free field followed by the separator is the first field. */
  lemma FieldsCons(a: string, rest: string, sep: char)
    requires sep !in a
    ensures Fields(a + ([sep] + rest), sep) == [a] + Fields(rest, sep)
  {
    FieldsPrefix(a, [sep] + rest, sep);
    FieldsSeparator(rest, sep);
    assert a + "" == a;
  }

  /** Splitting a join of separator-free parts into fields gives the parts back. */
  lemma {:induction false} FieldsJoin(parts: seq<string>, sep: char)
    requires |parts| >= 1
    requires forall k :: 0 <= k < |parts| ==> sep !in parts[k]
    ensures Fields(Join(parts, sep), sep) == parts
  {
    if |parts| == 1 {
      FieldsPrefix(parts[0], "", sep);
      assert parts[0] + "" == parts[0];
    } else {
      var tail := Join(parts[1..], sep);
      FieldsJoin(parts[1..], sep);
      var rest := [sep] + tail;
      FieldsPrefix(parts[0], rest, sep);
      assert parts[0] + [sep] + tail == parts[0] + rest;
      assert rest[0] == sep && rest[1..] == tail;
      assert Fields(rest, sep) == [""] + parts[1..];
      assert parts[0] + "" == parts[0];
      assert parts == [parts[0]] + parts[1..];
    }
  }

  /** The length of `xs` without its trailing empty strings. */
  function KeptLength(xs: seq<string>): (n: nat)
    ensures n <= |xs|
  {
    if xs != [] && xs[|xs| - 1] == "" then KeptLength(xs[..|xs| - 1]) else |xs|
  }

  /** What lies beyond the kept length is empty, and the last kept string is not. */
  lemma {:induction false} KeptLengthSpec(xs: seq<string>)
    ensures forall k :: KeptLength(xs) <= k < |xs| ==> xs[k] == ""
    ensures KeptLength(xs) > 0 ==> xs[KeptLength(xs) - 1] != ""
  {
    if xs != [] && xs[|xs| - 1] == "" {
      KeptLengthSpec(xs[..|xs| - 1]);
    }
  }

  /** `String#split(sep)` with a one-character, non-space separator and no
      limit: the fields between separators with the trailing empty fields
      dropped. */
  function Split(s: string, sep: char): (r: seq<string>)
    ensures |r| <= |Fields(s, sep)|
  {
    var fields := Fields(s, sep);
    fields[..KeptLength(fields)]
  }

  /** No field of a `split` holds the separator. */
  lemma SplitNoSeparator(s: string, sep: char)
    ensures forall k :: 0 <= k < |Split(s, sep)| ==> sep !in Split(s, sep)[k]
  {
    FieldsSpec(s, sep);
  }

  /** `split` gives the fields of `s` up to the last non-empty one: no field
      holds the separator, the last field is not empty, and only empty fields
      were dropped (so joining the result, padded with the dropped empty
      strings, gives `s` back). An empty string, or one made only of
      separators, splits into no fields at all. */
  lemma SplitSpec(s: string, sep: char)
    ensures Split(s, sep) == Fields(s, sep)[..|Split(s, sep)|]
    ensures forall k :: 0 <= k < |Split(s, sep)| ==> sep !in Split(s, sep)[k]
    ensures Split(s, sep) != [] ==> Split(s, sep)[|Split(s, sep)| - 1] != ""
    ensures forall k :: |Split(s, sep)| <= k < |Fields(s, sep)| ==> Fields(s, sep)[k] == ""
    ensures Join(Fields(s, sep), sep) == s
  {
    FieldsSpec(s, sep);
    KeptLengthSpec(Fields(s, sep));
    JoinFields(s, sep);
  }

  /** Splitting a join of separator-free parts whose last part is not empty
      gives the parts back: the round trip the output rows rely on. */
  lemma JoinSplit(parts: seq<string>, sep: char)
    requires |parts| >= 1 && parts[|parts| - 1] != ""
    requires forall k :: 0 <= k < |parts| ==> sep !in parts[k]
    ensures Split(Join(parts, sep), sep) == parts
  {
    FieldsJoin(parts, sep);
  }

  /** Joining two non-empty lists is joining each and putting the separator between. */
  lemma {:induction false} JoinAppend(ps: seq<string>, qs: seq<string>, sep: char)
    requires |ps| >= 1 && |qs| >= 1
    ensures Join(ps + qs, sep) == Join(ps, sep) + [sep] + Join(qs, sep)
  {
    if |ps| > 1 {
      JoinAppend(ps[1..], qs, sep);
      assert (ps + qs)[1..] == ps[1..] + qs;
    } else {
      assert (ps + qs)[1..] == qs;
    }
  }

  /** Upper-casing a join is joining the upper-cased parts when the
      separator is not a lower-case letter. */
  lemma {:induction false} UpcaseJoin(ps: seq<string>, sep: char)
    requires !IsLower(sep)
    ensures Upcase(Join(ps, sep)) == Join(UpcaseAll(ps), sep)
  {
    if |ps| > 1 {
      UpcaseJoin(ps[1..], sep);
      assert UpcaseAll(ps[1..]) == UpcaseAll(ps)[1..];
      UpcaseAppend(ps[0] + [sep], Join(ps[1..], sep));
      UpcaseAppend(ps[0], [sep]);
      assert Upcase([sep]) == [sep];
    }
  }

  /** `String#gsub(c, '')`. */
  function RemoveAll(s: string, c: char): (r: string)
    ensures |r| <= |s|
  {
    if s == [] then s
    else
      var rest := RemoveAll(s[1..], c);
      if s[0] == c then rest else [s[0]] + rest
  }

  /** `gsub(c, '')` works character by character, keeping the order: on
      one character it drops `c` and keeps any other, and on a concatenation
      it is the concatenation of the results. */
  lemma {:induction false} RemoveAllAppend(a: string, b: string, c: char)
    ensures RemoveAll(a + b, c) == RemoveAll(a, c) + RemoveAll(b, c)
    ensures forall d :: RemoveAll([d], c) == (if d == c then "" else [d])
  {
    forall d ensures RemoveAll([d], c) == (if d == c then "" else [d]) {
      assert [d][1..] == [];
    }
    if a != [] {
      RemoveAllAppend(a[1..], b, c);
      assert (a + b)[1..] == a[1..] + b;
      assert (a + b)[0] == a[0];
    } else {
      assert a + b == b;
    }
  }

  /** `gsub(c, '')` removes every occurrence of `c` and keeps every other
      character, as often as it occurred; a string without `c` is unchanged. */
  lemma {:induction false} RemoveAllSpec(s: string, c: char)
    ensures c !in RemoveAll(s, c)
    ensures forall d :: d != c ==> multiset(RemoveAll(s, c))[d] == multiset(s)[d]
    ensures |RemoveAll(s, c)| == |s| - multiset(s)[c]
    ensures c !in s ==> RemoveAll(s, c) == s
  {
    if s != [] {
      RemoveAllSpec(s[1..], c);
      assert s == [s[0]] + s[1..];
    }
  }
}
