/** stdlib/mystring.c: C strings. */
module Strings {
  import opened Words
  import opened Ascii
  import opened Printer

  /** The C string at `start` ends at a NUL and has none inside. */
  lemma {:induction false} CStringPrefix(s: seq<Byte>, start: nat)
    requires Terminated(s, start)
    ensures var end := start + |CString(s, start)|;
      end < |s| && s[end] == NUL && s[start..end] == CString(s, start) && NUL !in CString(s, start)
    decreases |s| - start
  {
    if s[start] != NUL {
      CStringPrefix(s, start + 1);
    }
  }

  /** The length of a string, its terminator included. */
  method Strlen(str: seq<Byte>) returns (length: int)
    requires Terminated(str, 0)
    ensures length == |CString(str, 0)| + 1
  {
    var i := 0;
    assert str[0..] == str;
    while str[i] != NUL
      invariant Terminated(str, i) && |CString(str, 0)| == i + |CString(str, i)|
      decreases |str| - i
    {
      i := i + 1;
    }
    return i + 1;
  }

  /** 0 if two strings are equal, 1 if not. */
  method StrCmp(str1: seq<Byte>, str2: seq<Byte>) returns (r: int)
    requires Terminated(str1, 0) && Terminated(str2, 0)
    ensures r == if CString(str1, 0) == CString(str2, 0) then 0 else 1
  {
    var i := 0;
    while str1[i] != NUL && str2[i] != NUL
      invariant Terminated(str1, i) && Terminated(str2, i)
      invariant CString(str1, 0) == CString(str2, 0) <==> CString(str1, i) == CString(str2, i)
      decreases |str1| - i
    {
      assert CString(str1, i) == [str1[i]] + CString(str1, i + 1);
      assert CString(str2, i) == [str2[i]] + CString(str2, i + 1);
      if str1[i] != str2[i] {
        assert CString(str1, i)[0] != CString(str2, i)[0];
        return 1;
      }
      assert CString(str1, i)[1..] == CString(str1, i + 1) && CString(str2, i)[1..] == CString(str2, i + 1);
      i := i + 1;
    }
    return if str1[i] == str2[i] then 0 else 1;
  }

  // ---- splitting ----

  predicate Separates(c: Byte) { c == SPACE || c == NEWLINE }

  /** The pieces of a text between its separators. */
  function Fields(text: seq<Byte>): (fields: seq<seq<Byte>>)
    ensures |fields| > 0
  {
    if text == [] then [[]]
    else
      var rest := Fields(text[1..]);
      if Separates(text[0]) then [[]] + rest else [[text[0]] + rest[0]] + rest[1..]
  }

  /** Its separators, in order. */
  function Separators(text: seq<Byte>): seq<Byte> {
    if text == [] then [] else (if Separates(text[0]) then [text[0]] else []) + Separators(text[1..])
  }

  function Rejoin(fields: seq<seq<Byte>>, separators: seq<Byte>): seq<Byte>
    requires |fields| == |separators| + 1
  {
    if separators == [] then fields[0] else fields[0] + [separators[0]] + Rejoin(fields[1..], separators[1..])
  }

  /** Splitting loses nothing, and leaves no separator in a field. */
  lemma {:induction false} RejoinFields(text: seq<Byte>)
    ensures |Fields(text)| == |Separators(text)| + 1 && Rejoin(Fields(text), Separators(text)) == text
    ensures forall j, i :: 0 <= j < |Fields(text)| && 0 <= i < |Fields(text)[j]| ==> !Separates(Fields(text)[j][i])
  {
    if text != [] {
      RejoinFields(text[1..]);
      var fs, ss, f := Fields(text[1..]), Separators(text[1..]), Fields(text);
      if Separates(text[0]) {
        assert f[1..] == fs && Separators(text)[1..] == ss;
        assert forall j :: 1 <= j < |f| ==> f[j] == fs[j - 1];
      } else {
        assert Separators(text) == ss;
        JoinFirst(fs, ss, text[0]);
        assert forall j :: 1 <= j < |f| ==> f[j] == fs[j];
      }
      assert text == [text[0]] + text[1..];
    }
  }

  lemma JoinFirst(fields: seq<seq<Byte>>, separators: seq<Byte>, c: Byte)
    requires |fields| == |separators| + 1
    ensures Rejoin([[c] + fields[0]] + fields[1..], separators) == [c] + Rejoin(fields, separators)
  {
    var more := [[c] + fields[0]] + fields[1..];
    assert more[1..] == fields[1..];
    if separators != [] {
      var rest := Rejoin(fields[1..], separators[1..]);
      assert ([c] + fields[0]) + [separators[0]] + rest == [c] + (fields[0] + [separators[0]] + rest);
    }
  }

  /** Where the fields after the first start, looking from position a. */
  function StartsFrom(text: seq<Byte>, a: nat): seq<nat>
    decreases |text| - a
  {
    if a >= |text| then []
    else (if Separates(text[a]) then [a + 1] else []) + StartsFrom(text, a + 1)
  }

  /** The text in memory, its first `done` characters looked at, separators among them overwritten. */
  ghost predicate Split(s: seq<Byte>, text: seq<Byte>, done: nat) {
    && |text| < |s| && s[|text|] == NUL
    && forall i :: 0 <= i < |text| ==> s[i] == if i < done && Separates(text[i]) then NUL else text[i]
  }

  /** The strings at `first` and at the starts are the fields. */
  ghost predicate AreFields(s: seq<Byte>, first: nat, starts: seq<nat>, fields: seq<seq<Byte>>) {
    && |fields| == |starts| + 1 && CString(s, first) == fields[0]
    && forall k :: 0 <= k < |starts| ==> CString(s, starts[k]) == fields[k + 1]
  }

  lemma AfterSeparator(s: seq<Byte>, a: nat, starts: seq<nat>, fields: seq<seq<Byte>>)
    requires AreFields(s, a + 1, starts, fields) && a < |s| && s[a] == NUL
    ensures AreFields(s, a, [a + 1] + starts, [[]] + fields)
  {
    hide CString;
    assert CString(s, a) == [] by { CStringIs(s, a, a); }
  }

  lemma AfterLetter(s: seq<Byte>, a: nat, starts: seq<nat>, fields: seq<seq<Byte>>)
    requires AreFields(s, a + 1, starts, fields) && a < |s| && s[a] != NUL
    ensures AreFields(s, a, starts, [[s[a]] + fields[0]] + fields[1..])
  {
    assert CString(s, a) == [s[a]] + CString(s, a + 1);
    hide CString;
  }

  /** The strings that start there in the overwritten text are its fields. */
  lemma {:induction false} FieldsInMemory(s: seq<Byte>, text: seq<Byte>, a: nat)
    requires Split(s, text, |text|) && NUL !in text && a <= |text|
    ensures AreFields(s, a, StartsFrom(text, a), Fields(text[a..]))
    decreases |text| - a
  {
    hide AreFields, CString;
    if a < |text| {
      FieldsInMemory(s, text, a + 1);
      assert text[a..][1..] == text[a + 1..];
      assert text[a] in text;
      if Separates(text[a]) {
        AfterSeparator(s, a, StartsFrom(text, a + 1), Fields(text[a + 1..]));
      } else {
        AfterLetter(s, a, StartsFrom(text, a + 1), Fields(text[a + 1..]));
        assert [] + StartsFrom(text, a + 1) == StartsFrom(text, a + 1);
      }
    } else {
      LastField(s, a, text);
    }
  }

  lemma LastField(s: seq<Byte>, a: nat, text: seq<Byte>)
    requires a == |text| < |s| && s[a] == NUL
    ensures AreFields(s, a, StartsFrom(text, a), Fields(text[a..]))
  {
    CStringIs(s, a, a);
  }

  /** `words`: splits a string in place; `out` receives where the fields start. */
  method SplitWords(in': array<Byte>, out: array<nat>)
    requires Terminated(in'[..], 0)
    requires |Separators(CString(in'[..], 0))| < out.Length
    modifies in', out
    ensures var text := CString(old(in'[..]), 0);
      && |Fields(text)| <= out.Length
      && forall j :: 0 <= j < |Fields(text)| ==> CString(in'[..], out[j]) == Fields(text)[j]
  {
    hide CString, Fields, AreFields;
    ghost var text := CString(in'[..], 0);
    CStringPrefix(in'[..], 0);
    TextInMemory(in'[..], text);
    StartsCount(text, 0);
    assert text[0..] == text;
    out[0] := 0;
    var len := Strlen(in'[..]);
    var j := 1;
    for i := 0 to len
      invariant Split(in'[..], text, i)
      invariant 1 <= j <= out.Length && out[..j] + StartsFrom(text, i) == [0] + StartsFrom(text, 0)
    {
      if in'[i] == SPACE || in'[i] == NEWLINE {
        assert |out[..j] + StartsFrom(text, i)| == j + |StartsFrom(text, i)|;
        ghost var starts := out[..j];
        out[j] := i + 1;
        j := j + 1;
        assert out[..j] == starts + [i + 1];
        in'[i] := NUL;
      }
    }
    FieldsInMemory(in'[..], text, 0);
    InOrder(in'[..], StartsFrom(text, 0), Fields(text), out[..], j);
  }

  lemma InOrder(s: seq<Byte>, starts: seq<nat>, fields: seq<seq<Byte>>, out: seq<nat>, j: nat)
    requires AreFields(s, 0, starts, fields) && j <= |out| && out[..j] == [0] + starts
    ensures |fields| <= |out| && forall k :: 0 <= k < |fields| ==> CString(s, out[k]) == fields[k]
  {
    hide CString;
    forall k | 0 <= k < |fields| ensures CString(s, out[k]) == fields[k] {
      assert out[k] == out[..j][k];
    }
  }

  lemma TextInMemory(s: seq<Byte>, text: seq<Byte>)
    requires |text| < |s| && s[|text|] == NUL && s[0..|text|] == text
    ensures Split(s, text, 0)
  {
    assert forall i :: 0 <= i < |text| ==> s[i] == s[0..|text|][i];
  }

  lemma {:induction false} StartsCount(text: seq<Byte>, a: nat)
    requires a <= |text|
    ensures |StartsFrom(text, a)| == |Separators(text[a..])|
    decreases |text| - a
  {
    if a < |text| {
      StartsCount(text, a + 1);
      assert text[a..][1..] == text[a + 1..];
    }
  }

  // ---- what separates ----

  /** No field contains a blank (32) or a newline (10), and every separator is one or the other. */
  lemma {:induction false} SeparatorsAre(text: seq<Byte>)
    ensures forall i :: 0 <= i < |Separators(text)| ==> Separators(text)[i] == 32 || Separators(text)[i] == 10
    ensures forall j :: 0 <= j < |Fields(text)| ==> 32 !in Fields(text)[j] && 10 !in Fields(text)[j]
  {
    RejoinFields(text);
    if text != [] {
      SeparatorsAre(text[1..]);
    }
  }

  /** A word without blanks and newlines, followed by one of them, is the first field, and the rest is split
      by itself. */
  lemma {:induction false} FirstField(word: seq<Byte>, c: Byte, rest: seq<Byte>)
    requires 32 !in word && 10 !in word && (c == 32 || c == 10)
    ensures Fields(word + [c] + rest) == [word] + Fields(rest)
    ensures Fields(word) == [word]
  {
    var text := word + [c] + rest;
    if word == [] {
      assert text == [c] + rest && text[1..] == rest;
    } else {
      FirstField(word[1..], c, rest);
      assert text[1..] == word[1..] + [c] + rest;
      assert word == [word[0]] + word[1..];
    }
  }
}
