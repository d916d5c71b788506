/** The hex codec of src/ayla/hex.c. */
module Hex {
  import opened Options

  const NUL: char := '\0'

  /** size_t is 64 bits wide. */
  const SIZE_LIMIT: nat := 0x1_0000_0000_0000_0000

  // ---------------------------------------------------------------- digits

  /** hex_nibble_to_ascii. */
  function Digit(n: nat, upper: bool): char
    requires n < 16
  {
    if n < 10 then '0' + n as char else (if upper then 'A' else 'a') + (n - 10) as char
  }

  /** hex_ascii_to_nibble. */
  function Nibble(c: char): (n: int)
    ensures -1 <= n < 16
  {
    if '0' <= c <= '9' then c as int - '0' as int
    else if 'A' <= c <= 'F' then c as int - 'A' as int + 10
    else if 'a' <= c <= 'f' then c as int - 'a' as int + 10
    else -1
  }

  lemma DigitNibble(n: nat, upper: bool)
    requires n < 16
    ensures Nibble(Digit(n, upper)) == n
  {
  }

  /** The same digit up to letter case, or the same character. */
  predicate Alike(c: char, d: char) {
    c == d || (Nibble(c) >= 0 && Nibble(c) == Nibble(d))
  }

  ghost predicate AlikeAll(s: seq<char>, t: seq<char>) {
    |s| == |t| && forall i :: 0 <= i < |s| ==> Alike(s[i], t[i])
  }

  // ---------------------------------------------------------------- printing

  function Pair(b: Byte, upper: bool): (s: seq<char>)
    ensures |s| == 2
  {
    [Digit(ToNat(b) / 16, upper), Digit(ToNat(b) % 16, upper)]
  }

  /** The text of hex_string; a delimiter of NUL means none. */
  function Printed(data: seq<Byte>, upper: bool, delim: char): (s: seq<char>)
    ensures |s| == if data == [] then 0 else if delim == NUL then 2 * |data| else 3 * |data| - 1
    decreases |data|
  {
    if data == [] then []
    else if |data| == 1 then Pair(data[0], upper)
    else Pair(data[0], upper) + ((if delim == NUL then [] else [delim]) + Printed(data[1..], upper, delim))
  }

  /** The length hex_string computes before it looks at the buffer; for no data and a delimiter the
      subtraction wraps around. */
  function PrintedSize(n: nat, delim: char): (len: nat)
    ensures 0 < n < SIZE_LIMIT / 4 ==> len == if delim == NUL then 2 * n else 3 * n - 1
  {
    if delim == NUL then (2 * n) % SIZE_LIMIT else (2 * n + n - 1) % SIZE_LIMIT
  }

  /** The digits themselves. */
  lemma DigitsAre(b: Byte, upper: bool, delim: char)
    ensures var digits := if upper then "0123456789ABCDEF" else "0123456789abcdef";
            Printed([b], upper, delim) == [digits[ToNat(b) / 16], digits[ToNat(b) % 16]]
  {
    hide ToNat;
    DigitIs(ToNat(b) / 16, upper);
    DigitIs(ToNat(b) % 16, upper);
  }

  lemma DigitIs(n: nat, upper: bool)
    requires n < 16
    ensures Digit(n, upper) == (if upper then "0123456789ABCDEF" else "0123456789abcdef")[n]
  {
    match n
    case 0 => case 1 => case 2 => case 3 => case 4 => case 5 => case 6 => case 7 =>
    case 8 => case 9 => case 10 => case 11 => case 12 => case 13 => case 14 => case _ =>
  }

  // ---------------------------------------------------------------- parsing

  /** hex_parse_byte. */
  function ByteAt(s: seq<char>): Option<Byte>
    requires |s| >= 2
  {
    var high, low := Nibble(s[0]), Nibble(s[1]);
    if high < 0 || low < 0 then None else Some(ToByte(16 * high + low))
  }

  /** The loop of hex_parse_n. */
  function Bytes(s: seq<char>, delim: char): (r: Option<seq<Byte>>)
    ensures r.Some? ==> r.value != []
    decreases |s|
  {
    if |s| < 2 then None
    else
      var b := ByteAt(s);
      if b.None? then None
      else if |s| == 2 then Some([b.value])
      else if delim != NUL && s[2] != delim then None
      else
        var rest := Bytes(s[if delim == NUL then 2 else 3..], delim);
        if rest.None? then None else Some([b.value] + rest.value)
  }

  /** The delimiter is looked for behind the first byte. */
  function FoundDelim(s: seq<char>): char {
    if |s| > 4 && Nibble(s[2]) < 0 then s[2] else NUL
  }

  /** The checks on length and room. */
  predicate Fits(len: nat, delim: char, size: nat) {
    len >= 2 &&
    if delim != NUL then (len - 2) % 3 == 0 && size >= (len - 2) / 3 + 1 else len % 2 == 0 && size >= len / 2
  }

  /** hex_parse_n: the bytes and the delimiter, if the text is accepted. */
  function Parsed(s: seq<char>, size: nat): Option<(seq<Byte>, char)> {
    var delim := FoundDelim(s);
    if !Fits(|s|, delim, size) then None
    else
      var r := Bytes(s, delim);
      if r.None? then None else Some((r.value, delim))
  }

  // ---------------------------------------------------------------- the one undoes the other

  lemma PairParses(s: seq<char>, b: Byte)
    requires |s| >= 2
    ensures ByteAt(s) == Some(b) <==> AlikeAll(s[..2], Pair(b, false))
  {
    hide ToByte, ToNat;
    var n := ToNat(b);
    DigitNibble(n / 16, false);
    DigitNibble(n % 16, false);
    ByteOfNat(b);
    var p := Pair(b, false);
    assert s[..2][0] == s[0] && s[..2][1] == s[1];
    if ByteAt(s) == Some(b) {
      assert n == 16 * Nibble(s[0]) + Nibble(s[1]);
    }
    if AlikeAll(s[..2], p) {
      assert Alike(s[..2][0], p[0]) && Alike(s[..2][1], p[1]);
    }
  }

  lemma AlikeSplit(s: seq<char>, a: seq<char>, b: seq<char>)
    requires |s| >= |a|
    ensures AlikeAll(s, a + b) <==> AlikeAll(s[..|a|], a) && AlikeAll(s[|a|..], b)
  {
    hide Alike;
    if AlikeAll(s, a + b) {
      assert forall i :: 0 <= i < |a| ==> s[..|a|][i] == s[i] && (a + b)[i] == a[i];
      assert forall i :: 0 <= i < |b| ==> s[|a|..][i] == s[i + |a|] && (a + b)[i + |a|] == b[i];
    }
    if AlikeAll(s[..|a|], a) && AlikeAll(s[|a|..], b) {
      forall i | 0 <= i < |s|
        ensures Alike(s[i], (a + b)[i])
      {
        if i < |a| {
          assert s[..|a|][i] == s[i];
        } else {
          assert s[|a|..][i - |a|] == s[i];
        }
      }
    }
  }

  predicate Delimits(delim: char) {
    delim == NUL || Nibble(delim) < 0
  }

  function Behind(data: seq<Byte>, upper: bool, delim: char): seq<char>
    requires data != []
  {
    (if delim == NUL then [] else [delim]) + Printed(data, upper, delim)
  }

  lemma PrintedFirst(data: seq<Byte>, upper: bool, delim: char)
    requires |data| >= 2
    ensures Printed(data, upper, delim) == Pair(data[0], upper) + Behind(data[1..], upper, delim)
  {
  }

  lemma PrintedOne(data: seq<Byte>, upper: bool, delim: char)
    requires |data| == 1
    ensures Printed(data, upper, delim) == Pair(data[0], upper)
  {
  }

  /** What comes behind the first byte, delimiter first. */
  lemma DelimMatches(s: seq<char>, data: seq<Byte>, delim: char)
    requires s != [] && data != [] && Delimits(delim)
    ensures AlikeAll(s, Behind(data, false, delim)) <==>
            (delim == NUL || s[0] == delim) && AlikeAll(s[if delim == NUL then 0 else 1..], Printed(data, false, delim))
  {
    hide Printed;
    if delim == NUL {
      assert s[0..] == s && [] + Printed(data, false, delim) == Printed(data, false, delim);
    } else {
      AlikeSplit(s, [delim], Printed(data, false, delim));
      assert s[..1][0] == s[0];
      if AlikeAll(s[..1], [delim]) {
        assert Alike(s[..1][0], [delim][0]);
      }
    }
  }

  lemma BytesNext(s: seq<char>, delim: char, data: seq<Byte>)
    requires |s| > 2
    ensures Bytes(s, delim) == Some(data) <==>
            |data| >= 2 && ByteAt(s) == Some(data[0]) && (delim == NUL || s[2] == delim) &&
            Bytes(s[if delim == NUL then 2 else 3..], delim) == Some(data[1..])
  {
    var rest := Bytes(s[if delim == NUL then 2 else 3..], delim);
    if data != [] {
      assert data == [data[0]] + data[1..];
    }
    if ByteAt(s).Some? && rest.Some? {
      assert ([ByteAt(s).value] + rest.value)[1..] == rest.value;
    }
  }

  lemma BytesLast(s: seq<char>, delim: char, data: seq<Byte>)
    requires |s| <= 2
    ensures Bytes(s, delim) == Some(data) <==> |s| == 2 && |data| == 1 && ByteAt(s) == Some(data[0])
  {
    if |data| == 1 {
      assert data == [data[0]];
    }
  }

  /** The loop yields some bytes exactly when the text is their printed form, up to letter case. */
  lemma {:induction false} BytesExactly(s: seq<char>, delim: char, data: seq<Byte>)
    requires Delimits(delim)
    ensures Bytes(s, delim) == Some(data) <==> data != [] && AlikeAll(s, Printed(data, false, delim))
    decreases |s|
  {
    hide Bytes, ByteAt, Printed, Pair, Alike, Nibble;
    if |s| <= 2 {
      BytesLast(s, delim, data);
      if |data| == 1 && |s| == 2 {
        PairParses(s, data[0]);
        PrintedOne(data, false, delim);
        assert s[..2] == s;
      }
    } else {
      BytesNext(s, delim, data);
      if |data| >= 2 {
        PairParses(s, data[0]);
        PrintedFirst(data, false, delim);
        AlikeSplit(s, Pair(data[0], false), Behind(data[1..], false, delim));
        DelimMatches(s[2..], data[1..], delim);
        assert s[2..][if delim == NUL then 0 else 1..] == s[if delim == NUL then 2 else 3..];
        BytesExactly(s[if delim == NUL then 2 else 3..], delim, data[1..]);
      } else if |data| == 1 {
        PrintedOne(data, false, delim);
      }
    }
  }

  /** The third character tells whether there is a delimiter. */
  lemma DelimIsFound(s: seq<char>, data: seq<Byte>, delim: char)
    requires |data| >= 1 && Delimits(delim) && (|data| == 1 ==> delim == NUL)
    requires AlikeAll(s, Printed(data, false, delim))
    ensures FoundDelim(s) == delim
  {
    hide Printed, Pair;
    if |data| >= 2 {
      PrintedFirst(data, false, delim);
      AlikeSplit(s, Pair(data[0], false), Behind(data[1..], false, delim));
      DelimMatches(s[2..], data[1..], delim);
      if delim == NUL {
        PrintedStarts(data[1..], delim);
        assert Alike(s[2..][0], Printed(data[1..], false, delim)[0]);
      }
    }
  }

  lemma PrintedStarts(data: seq<Byte>, delim: char)
    requires data != []
    ensures Nibble(Printed(data, false, delim)[0]) >= 0
  {
    hide ToNat;
    DigitNibble(ToNat(data[0]) / 16, false);
  }

  /** Main result: hex_parse_n accepts a text, with these bytes and this delimiter, if and only if the
      text is what hex_string prints for them, up to letter case, and there is room. */
  lemma ParsedExactly(s: seq<char>, size: nat, data: seq<Byte>, delim: char)
    ensures Parsed(s, size) == Some((data, delim)) <==>
            && 1 <= |data| <= size
            && (delim == NUL || (|data| >= 2 && Nibble(delim) < 0))
            && AlikeAll(s, Printed(data, false, delim))
  {
    hide Bytes, Printed, Alike, Nibble;
    var found := FoundDelim(s);
    FoundDelimits(s);
    BytesExactly(s, found, data);
    if 1 <= |data| <= size && (delim == NUL || (|data| >= 2 && Nibble(delim) < 0)) &&
       AlikeAll(s, Printed(data, false, delim)) {
      DelimIsFound(s, data, delim);
    }
  }

  lemma FoundDelimits(s: seq<char>)
    ensures Delimits(FoundDelim(s)) && (FoundDelim(s) != NUL ==> |s| > 4)
  {
  }

  lemma {:induction false} CaseDoesNotMatter(data: seq<Byte>, upper: bool, delim: char)
    ensures AlikeAll(Printed(data, upper, delim), Printed(data, false, delim))
    decreases |data|
  {
    hide Digit, Nibble, ToNat;
    if data != [] {
      DigitNibble(ToNat(data[0]) / 16, upper);
      DigitNibble(ToNat(data[0]) % 16, upper);
      DigitNibble(ToNat(data[0]) / 16, false);
      DigitNibble(ToNat(data[0]) % 16, false);
      CaseDoesNotMatter(data[1..], upper, delim);
    }
  }

  /** Printing and parsing again gives the bytes, and for two or more of them the delimiter. */
  lemma RoundTrip(data: seq<Byte>, upper: bool, delim: char, size: nat)
    requires data != [] && Delimits(delim)
    ensures Parsed(Printed(data, upper, delim), size)
         == if size < |data| then None else Some((data, if |data| == 1 then NUL else delim))
  {
    hide Bytes, Pair, Nibble, Alike;
    var s := Printed(data, upper, delim);
    var d := if |data| == 1 then NUL else delim;
    CaseDoesNotMatter(data, upper, delim);
    ParsedExactly(s, if size < |data| then |data| else size, data, d);
  }

  // ---------------------------------------------------------------- the loops

  /** The text that is still to be printed, split behind its next byte. */
  lemma PrintedNext(data: seq<Byte>, i: nat, upper: bool, delim: char)
    requires i < |data|
    ensures i + 1 == |data| ==>
              Printed(data[i..], upper, delim) == Pair(data[i], upper) && Printed(data[i + 1..], upper, delim) == []
    ensures i + 1 < |data| ==>
              Printed(data[i..], upper, delim) == Pair(data[i], upper) + Behind(data[i + 1..], upper, delim)
  {
    assert data[i..][1..] == data[i + 1..] && data[i..][0] == data[i];
  }

  /** The body of the loop of hex_string. */
  method PrintByte(buf: array<char>, from: nat, data: seq<Byte>, i: nat, upper: bool, delim: char) returns (at: nat)
    requires i < |data| && from + |Printed(data[i..], upper, delim)| < buf.Length
    modifies buf
    ensures at + |Printed(data[i + 1..], upper, delim)| == from + |Printed(data[i..], upper, delim)|
    ensures buf[..at] + Printed(data[i + 1..], upper, delim) == old(buf[..from]) + Printed(data[i..], upper, delim)
    ensures buf[at..] == old(buf[at..])
  {
    hide Printed, Pair;
    ghost var before, rest := buf[..from], Printed(data[i + 1..], upper, delim);
    PrintedNext(data, i, upper, delim);
    at := PutPair(buf, from, data[i], upper);
    Regroup(before, Pair(data[i], upper), [delim], rest);
    if delim != NUL && i + 1 < |data| {
      assert Behind(data[i + 1..], upper, delim) == [delim] + rest;
      ghost var tail := buf[at..];
      assert tail == old(buf[at..]) && tail[1..] == old(buf[at + 1..]) && tail[1..] == buf[at + 1..];
      at := Put(buf, at, delim);
      assert buf[..at] == before + Pair(data[i], upper) + [delim];
    } else {
      assert i + 1 < |data| ==> Behind(data[i + 1..], upper, delim) == [] + rest;
      assert buf[..at] == before + Pair(data[i], upper);
    }
  }

  /** *buf++ = c. */
  method Put(buf: array<char>, from: nat, c: char) returns (at: nat)
    requires from < buf.Length
    modifies buf
    ensures at == from + 1 && buf[..at] == old(buf[..from]) + [c] && buf[at..] == old(buf[at..])
  {
    buf[from] := c;
    at := from + 1;
  }

  method PutPair(buf: array<char>, from: nat, b: Byte, upper: bool) returns (at: nat)
    requires from + 2 <= buf.Length
    modifies buf
    ensures at == from + 2 && buf[..at] == old(buf[..from]) + Pair(b, upper) && buf[at..] == old(buf[at..])
  {
    hide Digit, ToNat;
    ghost var before, tail := buf[..from], buf[from + 1..];
    at := Put(buf, from, Digit(ToNat(b) / 16, upper));
    assert tail[1..] == old(buf[from + 2..]) && buf[at..][1..] == buf[at + 1..];
    at := Put(buf, at, Digit(ToNat(b) % 16, upper));
  }

  lemma Regroup(a: seq<char>, b: seq<char>, c: seq<char>, d: seq<char>)
    ensures a + b + c + d == a + (b + (c + d)) && a + b + d == a + (b + d) && a + (b + ([] + d)) == a + (b + d)
    ensures a + b + [] == a + b
  {
    assert [] + d == d;
  }

  /** hex_string. */
  method HexString(buf: array<char>, size: nat, data: seq<Byte>, upper: bool, delim: char) returns (len: int)
    requires size <= buf.Length && size < SIZE_LIMIT && |data| < SIZE_LIMIT / 4
    modifies buf
    ensures len == if size <= PrintedSize(|data|, delim) then -1 else PrintedSize(|data|, delim)
    ensures len == -1 ==> buf[..] == old(buf[..])
    ensures len >= 0 ==> len < size && buf[..len] == Printed(data, upper, delim) && buf[len] == NUL
    ensures len >= 0 ==> buf[len + 1..] == old(buf[len + 1..])
  {
    hide Printed, Pair, Digit;
    var n := PrintedSize(|data|, delim);
    if size <= n {
      return -1;
    }
    SizeIsRight(|data|, delim, size, n);
    ghost var text := Printed(data, upper, delim);
    var i, at := 0, 0;
    assert data[0..] == data;
    while i < |data|
      invariant i <= |data| && at + |Printed(data[i..], upper, delim)| == n < size
      invariant buf[..at] + Printed(data[i..], upper, delim) == text
      invariant buf[n + 1..] == old(buf[n + 1..])
    {
      at := PrintByte(buf, at, data, i, upper, delim);
      i := i + 1;
    }
    NonePrinted(data[i..], upper, delim);
    assert buf[..at] + [] == buf[..at];
    buf[at] := NUL;
    len := n;
  }

  lemma SizeIsRight(n: nat, delim: char, size: nat, len: nat)
    requires len == PrintedSize(n, delim) < size && n < SIZE_LIMIT / 4
    ensures n > 0 ==> len == if delim == NUL then 2 * n else 3 * n - 1
    ensures n == 0 && delim == NUL ==> len == 0
  {
  }

  lemma NonePrinted(data: seq<Byte>, upper: bool, delim: char)
    ensures data == [] ==> Printed(data, upper, delim) == []
  {
  }

  lemma BytesStep(s: seq<char>, delim: char, got: seq<Byte>, b: Byte)
    requires |s| >= 2 && ByteAt(s) == Some(b)
    ensures |s| == 2 ==> Bytes(s, delim) == Some([b])
    ensures |s| > 2 && delim != NUL && s[2] != delim ==> Bytes(s, delim) == None
    ensures |s| > 2 && (delim == NUL || s[2] == delim) ==>
              After(got, Bytes(s, delim)) == After(got + [b], Bytes(s[if delim == NUL then 2 else 3..], delim))
  {
    if |s| > 2 && Bytes(s[if delim == NUL then 2 else 3..], delim).Some? {
      var rest := Bytes(s[if delim == NUL then 2 else 3..], delim);
      assert got + ([b] + rest.value) == (got + [b]) + rest.value;
    }
  }

  /** Bytes already stored and bytes still to come. */
  function After(got: seq<Byte>, r: Option<seq<Byte>>): Option<seq<Byte>> {
    if r.None? then None else Some(got + r.value)
  }

  /** hex_parse_n.  On failure the buffer may hold what was parsed so far. */
  method HexParseN(buf: array<Byte>, size: nat, str: seq<char>, len: nat) returns (n: int, delim: char)
    requires size <= buf.Length && len <= |str|
    modifies buf
    ensures n == -1 <==> Parsed(str[..len], size) == None
    ensures n != -1 ==> 0 < n <= size && Parsed(str[..len], size) == Some((buf[..n], delim))
    ensures buf[size..] == old(buf[size..])
  {
    hide Bytes, ByteAt;
    var s := str[..len];
    delim := NUL;
    if len < 2 {
      return -1, delim;
    }
    if len > 4 && Nibble(str[2]) < 0 {
      delim := str[2];
    }
    assert delim == FoundDelim(s);
    if !Fits(len, delim, size) {
      return -1, delim;
    }
    n := ParseLoop(buf, size, s, delim);
  }

  /** Its loop. */
  method ParseLoop(buf: array<Byte>, size: nat, s: seq<char>, delim: char) returns (n: int)
    requires size <= buf.Length && Fits(|s|, delim, size)
    modifies buf
    ensures n == -1 <==> Bytes(s, delim) == None
    ensures n != -1 ==> 0 < n <= size && Bytes(s, delim) == Some(buf[..n])
    ensures buf[size..] == old(buf[size..])
  {
    hide Bytes, ByteAt;
    var at, nbytes := 0, 0;
    assert s[0..] == s && buf[..0] == [];
    AfterNothing(Bytes(s, delim));
    while true
      invariant at + 2 <= |s| && at == (if delim == NUL then 2 else 3) * nbytes && buf[size..] == old(buf[size..])
      invariant After(buf[..nbytes], Bytes(s[at..], delim)) == Bytes(s, delim)
      decreases |s| - at
    {
      RoomLeft(|s|, delim, size, at, nbytes);
      var b := ParseByte(s, at);
      if b.None? {
        BytesFail(s[at..], delim);
        return -1;
      }
      BytesStep(s[at..], delim, buf[..nbytes], b.value);
      assert |s| > at + 2 ==> s[at..][2] == s[at + 2];
      assert |s| > at + 2 ==> s[at..][if delim == NUL then 2 else 3..] == s[at + if delim == NUL then 2 else 3..];
      ghost var got := buf[..nbytes];
      buf[nbytes] := b.value;
      nbytes := nbytes + 1;
      assert buf[..nbytes] == got + [b.value];
      at := at + 2;
      if at == |s| {
        return nbytes;
      }
      if delim != NUL {
        if s[at] != delim {
          return -1;
        }
        at := at + 1;
      }
      NextFits(|s|, delim, size, at, nbytes);
    }
  }

  /** The source checks for room in each turn; after the first check there always is. */
  lemma RoomLeft(len: nat, delim: char, size: nat, at: nat, nbytes: nat)
    requires Fits(len, delim, size) && at + 2 <= len && at == (if delim == NUL then 2 else 3) * nbytes
    ensures nbytes < size
  {
  }

  lemma NextFits(len: nat, delim: char, size: nat, at: nat, nbytes: nat)
    requires Fits(len, delim, size) && at == (if delim == NUL then 2 else 3) * nbytes
    requires if delim == NUL then at < len else at <= len
    ensures at + 2 <= len
  {
  }

  method ParseByte(s: seq<char>, at: nat) returns (b: Option<Byte>)
    requires at + 2 <= |s|
    ensures b == ByteAt(s[at..])
  {
    hide ToByte, Nibble;
    var high := Nibble(s[at]);
    if high < 0 {
      return None;
    }
    var low := Nibble(s[at + 1]);
    if low < 0 {
      return None;
    }
    b := Some(ToByte(16 * high + low));
  }

  lemma BytesFail(s: seq<char>, delim: char)
    requires |s| >= 2 && ByteAt(s) == None
    ensures Bytes(s, delim) == None
  {
  }

  lemma AfterNothing(r: Option<seq<Byte>>)
    ensures After([], r) == r
  {
    if r.Some? {
      assert [] + r.value == r.value;
    }
  }
}
