/** The string operations of the source that its address codecs rely on, over ASCII. */
module Text {
  import opened Bytes

  predicate IsAscii(s: string) {
    forall i | 0 <= i < |s| :: s[i] < 128 as char
  }

  type AsciiString = s: string | IsAscii(s)

  function LowerChar(c: char): char {
    if 'A' <= c <= 'Z' then (c as int + 32) as char else c
  }

  function ToLower(s: AsciiString): (t: AsciiString)
    ensures |t| == |s| && forall i | 0 <= i < |s| :: t[i] == LowerChar(s[i])
  {
    seq(|s|, i requires 0 <= i < |s| => LowerChar(s[i]))
  }

  /** The ASCII letters in both cases; nothing else changes. */
  lemma LowerTable(i: nat, c: char)
    ensures i < 26 ==> LowerChar("ABCDEFGHIJKLMNOPQRSTUVWXYZ"[i]) == "abcdefghijklmnopqrstuvwxyz"[i]
    ensures c !in "ABCDEFGHIJKLMNOPQRSTUVWXYZ" ==> LowerChar(c) == c
  {
    UpperRun(i);
    if 'A' <= c <= 'Z' {
      UpperRun(c as int - 65);
    }
  }

  lemma UpperRun(i: nat)
    ensures i < 26 ==> "ABCDEFGHIJKLMNOPQRSTUVWXYZ"[i] as int == 65 + i
    ensures i < 26 ==> "abcdefghijklmnopqrstuvwxyz"[i] as int == 97 + i
  {
  }

  /** The source's cast of a character to u8, which keeps its low eight bits. */
  function CharByte(c: char): byte {
    c as int % 256
  }

  /** The bytes of a byte-string literal. */
  function AsciiBytes(s: string): (bs: Bytes)
    ensures |bs| == |s|
  {
    seq(|s|, i requires 0 <= i < |s| => CharByte(s[i]))
  }

  /** The Unicode White_Space property. */
  predicate IsWhitespace(c: char) {
    var n := c as int;
    || 0x09 <= n <= 0x0d || n == 0x20 || n == 0x85 || n == 0xa0 || n == 0x1680
    || 0x2000 <= n <= 0x200a || n == 0x2028 || n == 0x2029 || n == 0x202f || n == 0x205f || n == 0x3000
  }

  /** Of the ASCII characters the blanks are tab, line feed, vertical tab, form feed, carriage return and space. */
  lemma AsciiBlanks(c: char)
    requires c < 128 as char
    ensures IsWhitespace(c) <==> c in "\t\n\U{000b}\U{000c}\r "
  {
  }

  function TrimStart(s: string): (t: string)
    ensures |t| <= |s|
    ensures IsAscii(s) ==> IsAscii(t)
  {
    if s != [] && IsWhitespace(s[0]) then TrimStart(s[1..]) else s
  }

  function TrimEnd(s: string): (t: string)
    ensures |t| <= |s|
    ensures IsAscii(s) ==> IsAscii(t)
  {
    if s != [] && IsWhitespace(s[|s| - 1]) then TrimEnd(s[..|s| - 1]) else s
  }

  predicate Blank(s: string) {
    forall i | 0 <= i < |s| :: IsWhitespace(s[i])
  }

  lemma {:induction false} TrimStartDrops(w: string, s: string)
    requires Blank(w) && (s != [] ==> !IsWhitespace(s[0]))
    ensures TrimStart(w + s) == s
  {
    hide IsWhitespace;
    if w == [] {
      assert w + s == s;
    } else {
      TrimStartDrops(w[1..], s);
      assert (w + s)[1..] == w[1..] + s;
    }
  }

  lemma {:induction false} TrimEndDrops(s: string, w: string)
    requires Blank(w) && (s != [] ==> !IsWhitespace(s[|s| - 1]))
    ensures TrimEnd(s + w) == s
  {
    hide IsWhitespace;
    if w == [] {
      assert s + w == s;
    } else {
      TrimEndDrops(s, w[..|w| - 1]);
      assert (s + w)[..|s + w| - 1] == s + w[..|w| - 1];
    }
  }

  lemma TrimDrops(w1: string, s: string, w2: string)
    requires Blank(w1) && Blank(w2)
    requires s != [] ==> !IsWhitespace(s[0]) && !IsWhitespace(s[|s| - 1])
    ensures TrimEnd(TrimStart(w1 + s + w2)) == s
  {
    hide TrimStart, TrimEnd, IsWhitespace;
    TrimEndDrops(s, w2);
    if s == [] {
      TrimStartDrops(w1 + w2, []);
      assert TrimEnd("") == "";
      assert w1 + s + w2 == (w1 + w2) + [];
    } else {
      TrimStartDrops(w1, s + w2);
      assert w1 + s + w2 == w1 + (s + w2);
    }
  }

  lemma {:induction false} TrimStartCuts(s: string) returns (w: string)
    ensures Blank(w) && s == w + TrimStart(s)
    ensures TrimStart(s) != [] ==> !IsWhitespace(TrimStart(s)[0])
  {
    hide IsWhitespace;
    w := [];
    if s != [] && IsWhitespace(s[0]) {
      var v := TrimStartCuts(s[1..]);
      w := [s[0]] + v;
      assert s == [s[0]] + s[1..];
    }
  }

  lemma {:induction false} TrimEndCuts(s: string) returns (w: string)
    ensures Blank(w) && s == TrimEnd(s) + w
  {
    hide IsWhitespace;
    w := [];
    if s != [] && IsWhitespace(s[|s| - 1]) {
      var v := TrimEndCuts(s[..|s| - 1]);
      w := v + [s[|s| - 1]];
      assert s == s[..|s| - 1] + [s[|s| - 1]];
    }
  }

  /** Trimming cuts blanks off both ends and nothing else. */
  lemma TrimCuts(s: string)
    ensures exists w1: string, w2: string :: Blank(w1) && Blank(w2) && s == w1 + TrimEnd(TrimStart(s)) + w2
  {
    hide TrimStart, TrimEnd, Blank;
    var w1 := TrimStartCuts(s);
    var w2 := TrimEndCuts(TrimStart(s));
    assert s == w1 + TrimEnd(TrimStart(s)) + w2;
  }

  /** Index of the first occurrence. */
  function Find(s: string, c: char): (r: Option<nat>)
    ensures r.None? ==> c !in s
    ensures r.Some? ==> r.value < |s| && s[r.value] == c && c !in s[..r.value]
  {
    if s == [] then None
    else if s[0] == c then Some(0)
    else
      match Find(s[1..], c)
      case None => None
      case Some(i) =>
        assert s[..i + 1] == [s[0]] + s[1..][..i];
        Some(i + 1)
  }

  /** Index of the last occurrence. */
  function FindLast(s: string, c: char): (r: Option<nat>)
    ensures r.None? <==> c !in s
    ensures r.Some? ==> r.value < |s| && s[r.value] == c && c !in s[r.value + 1..]
  {
    if s == [] then None
    else if s[|s| - 1] == c then Some(|s| - 1)
    else FindLast(s[..|s| - 1], c)
  }

  lemma {:induction false} FindDistinct(s: string, i: nat)
    requires i < |s| && forall j | 0 <= j < i :: s[j] != s[i]
    ensures Find(s, s[i]) == Some(i)
  {
    if i > 0 {
      FindDistinct(s[1..], i - 1);
    }
  }

  lemma FindLastIs(s: string, c: char, i: nat)
    requires i < |s| && s[i] == c && c !in s[i + 1..]
    ensures FindLast(s, c) == Some(i)
  {
  }

  /** A text in ASCII is its own bytes. */
  lemma BytesOfAscii(s: AsciiString, i: nat)
    requires i < |s|
    ensures AsciiBytes(s)[i] == s[i] as int
  {
  }
}
