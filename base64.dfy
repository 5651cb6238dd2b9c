/**
 * The base64 encoding of section 4 of RFC 4648 (alphabet "A-Z a-z 0-9 + /", '=' padding),
 * as used by Python's `base64.b64encode` and the non-validating `base64.b64decode`.
 */
module Base64 {
  import opened Common

  /** The letter for a 6-bit value (Table 1 of RFC 4648). */
  function CharOf(v: int): (c: char)
    requires 0 <= v < 64
    ensures IsAlphabetChar(c)
  {
    if v < 26 then (65 + v) as char
    else if v < 52 then (97 + v - 26) as char
    else if v < 62 then (48 + v - 52) as char
    else if v == 62 then '+'
    else '/'
  }

  predicate IsAlphabetChar(c: char) {
    ('A' <= c <= 'Z') || ('a' <= c <= 'z') || ('0' <= c <= '9') || c == '+' || c == '/'
  }

  /** The 6-bit value a letter of the alphabet stands for: the inverse of CharOf. */
  function ValueOf(c: char): (v: int)
    requires IsAlphabetChar(c)
    ensures 0 <= v < 64 && CharOf(v) == c
  {
    if 'A' <= c <= 'Z' then c as int - 65
    else if 'a' <= c <= 'z' then c as int - 97 + 26
    else if '0' <= c <= '9' then c as int - 48 + 52
    else if c == '+' then 62
    else 63
  }

  lemma ValueOfCharOf(v: int)
    requires 0 <= v < 64
    ensures IsAlphabetChar(CharOf(v)) && ValueOf(CharOf(v)) == v
  {
  }

  /** `n` consecutive characters starting at code point `start`. */
  function Run(start: int, n: nat): seq<char>
    requires 0 <= start && start + n < 128
  {
    seq(n, i requires 0 <= i < n => (start + i) as char)
  }

  lemma RunsSpellLetters()
    ensures Run(65, 26) == "ABCDEFGHIJKLMNOPQRSTUVWXYZ"
    ensures Run(97, 26) == "abcdefghijklmnopqrstuvwxyz"
    ensures Run(48, 10) == "0123456789"
  {
  }

  lemma LettersJoin()
    ensures "ABCDEFGHIJKLMNOPQRSTUVWXYZ" + "abcdefghijklmnopqrstuvwxyz" + "0123456789" + "+/"
         == "ABCDEFGHIJKLMNOPQRSTUVWXYZabcdefghijklmnopqrstuvwxyz0123456789+/"
  {
  }

  /** CharOf spells out exactly the alphabet printed in Table 1 of RFC 4648. */
  lemma AlphabetIsRfc4648()
    ensures seq(64, i requires 0 <= i < 64 => CharOf(i))
         == "ABCDEFGHIJKLMNOPQRSTUVWXYZabcdefghijklmnopqrstuvwxyz0123456789+/"
  {
    var letters := seq(64, i requires 0 <= i < 64 => CharOf(i));
    var runs := Run(65, 26) + Run(97, 26) + Run(48, 10) + "+/";
    forall i | 0 <= i < 64
      ensures letters[i] == runs[i]
    {
    }
    assert letters == runs;
    RunsSpellLetters();
    LettersJoin();
  }

  /** One group: 1 to 3 bytes become 4 letters, the missing bytes written as '='. */
  function EncodeGroup(b: seq<Byte>): (g: string)
    requires 1 <= |b| <= 3
    ensures |g| == 4
  {
    if |b| == 1 then
      [CharOf(b[0] / 4), CharOf((b[0] % 4) * 16), '=', '=']
    else if |b| == 2 then
      [CharOf(b[0] / 4), CharOf((b[0] % 4) * 16 + b[1] / 16), CharOf((b[1] % 16) * 4), '=']
    else
      [CharOf(b[0] / 4), CharOf((b[0] % 4) * 16 + b[1] / 16), CharOf((b[1] % 16) * 4 + b[2] / 64), CharOf(b[2] % 64)]
  }

  /** `base64.b64encode`: groups of three bytes, the last group padded. */
  function Encode(data: seq<Byte>): (text: string)
    ensures |text| == 4 * ((|data| + 2) / 3)
    ensures forall i | 0 <= i < |text| :: IsAlphabetChar(text[i]) || text[i] == '='
    decreases |data|
  {
    if |data| == 0 then []
    else if |data| <= 3 then EncodeGroup(data)
    else
      assert (|data[3..]| + 2) / 3 == (|data| + 2) / 3 - 1;
      EncodeGroup(data[..3]) + Encode(data[3..])
  }

  /** Decodes one 4-letter group; '=' may only end the last group. */
  function DecodeGroup(g: string, last: bool): (r: Result<seq<Byte>>)
    requires |g| == 4
    ensures r.Ok? ==> 1 <= |r.value| <= 3
    ensures r.Ok? && !last ==> |r.value| == 3
  {
    if !IsAlphabetChar(g[0]) || !IsAlphabetChar(g[1]) then Err("Incorrect padding")
    else
      var v0, v1 := ValueOf(g[0]), ValueOf(g[1]);
      var b0: Byte := v0 * 4 + v1 / 16;
      if IsAlphabetChar(g[2]) && IsAlphabetChar(g[3]) then
        var v2, v3 := ValueOf(g[2]), ValueOf(g[3]);
        Ok([b0, (v1 % 16) * 16 + v2 / 4, (v2 % 4) * 64 + v3])
      else if last && IsAlphabetChar(g[2]) && g[3] == '=' then
        var v2 := ValueOf(g[2]);
        Ok([b0, (v1 % 16) * 16 + v2 / 4])
      else if last && g[2] == '=' && g[3] == '=' then
        Ok([b0])
      else
        Err("Incorrect padding")
  }

  /** The bytes of a group followed by those of the groups after it; the first error wins. */
  function Join(first: Result<seq<Byte>>, others: Result<seq<Byte>>): Result<seq<Byte>> {
    if first.Err? then first
    else if others.Err? then others
    else Ok(first.value + others.value)
  }

  /**
   * Strict decoding of text made of alphabet letters and '=' padding, four letters at a time:
   * it succeeds only on whole groups, and every group but the last gives three bytes.
   */
  function Decode(text: string): (r: Result<seq<Byte>>)
    ensures r.Ok? ==> |text| % 4 == 0
    ensures r.Ok? ==> 4 * |r.value| <= 3 * |text| && 3 * |text| <= 4 * |r.value| + 8
    decreases |text|
  {
    if |text| == 0 then Ok([])
    else if |text| < 4 then Err("Incorrect padding")
    else Join(DecodeGroup(text[..4], |text| == 4), Decode(text[4..]))
  }

  /** What the non-validating decoder keeps: alphabet letters and '='; all else is discarded. */
  function Discard(text: string): (kept: string)
    ensures |kept| <= |text|
    ensures forall i | 0 <= i < |kept| :: IsAlphabetChar(kept[i]) || kept[i] == '='
  {
    if text == [] then []
    else if IsAlphabetChar(text[0]) || text[0] == '=' then [text[0]] + Discard(text[1..])
    else Discard(text[1..])
  }

  /** Every character is ASCII, as `str.encode('ascii')` demands. */
  predicate IsAscii(text: string) {
    forall i | 0 <= i < |text| :: text[i] as int < 128
  }

  /**
   * `base64.b64decode(text)` with its default `validate=False`: a `str` holding a non-ASCII
   * character raises `ValueError`; otherwise non-alphabet characters are discarded and the
   * rest is decoded.
   */
  function LenientDecode(text: string): (r: Result<seq<Byte>>)
    ensures !IsAscii(text) ==> r.Err?
  {
    if !IsAscii(text) then Err("string argument should contain only ASCII characters")
    else Decode(Discard(text))
  }

  /** The four 6-bit letters of three bytes give the three bytes back. */
  lemma SixBitDigits(b0: Byte, b1: Byte, b2: Byte)
    ensures var c0, c1, c2, c3 := b0 / 4, (b0 % 4) * 16 + b1 / 16, (b1 % 16) * 4 + b2 / 64, b2 % 64;
      && 0 <= c0 < 64 && 0 <= c1 < 64 && 0 <= c2 < 64 && 0 <= c3 < 64
      && c0 * 4 + c1 / 16 == b0
      && (c1 % 16) * 16 + c2 / 4 == b1
      && (c2 % 4) * 64 + c3 == b2
  {
    var c1, c2 := (b0 % 4) * 16 + b1 / 16, (b1 % 16) * 4 + b2 / 64;
    assert c1 / 16 == b0 % 4 && c1 % 16 == b1 / 16;
    assert c2 / 4 == b1 % 16 && c2 % 4 == b2 / 64;
  }

  /** Four letters decode to the three bytes their 24 bits spell. */
  lemma DecodeFourLetters(c0: int, c1: int, c2: int, c3: int, last: bool)
    requires 0 <= c0 < 64 && 0 <= c1 < 64 && 0 <= c2 < 64 && 0 <= c3 < 64
    ensures DecodeGroup([CharOf(c0), CharOf(c1), CharOf(c2), CharOf(c3)], last)
         == Ok([c0 * 4 + c1 / 16, (c1 % 16) * 16 + c2 / 4, (c2 % 4) * 64 + c3])
  {
    ValueOfCharOf(c0);
    ValueOfCharOf(c1);
    ValueOfCharOf(c2);
    ValueOfCharOf(c3);
  }

  /** Three letters and one '=' end the text with two bytes. */
  lemma DecodeThreeLetters(c0: int, c1: int, c2: int)
    requires 0 <= c0 < 64 && 0 <= c1 < 64 && 0 <= c2 < 64
    ensures DecodeGroup([CharOf(c0), CharOf(c1), CharOf(c2), '='], true)
         == Ok([c0 * 4 + c1 / 16, (c1 % 16) * 16 + c2 / 4])
  {
    ValueOfCharOf(c0);
    ValueOfCharOf(c1);
    ValueOfCharOf(c2);
  }

  /** Two letters and two '=' end the text with one byte. */
  lemma DecodeTwoLetters(c0: int, c1: int)
    requires 0 <= c0 < 64 && 0 <= c1 < 64
    ensures DecodeGroup([CharOf(c0), CharOf(c1), '=', '='], true) == Ok([c0 * 4 + c1 / 16])
  {
    ValueOfCharOf(c0);
    ValueOfCharOf(c1);
  }

  /** The letters of a full group. */
  lemma EncodeFull(b0: Byte, b1: Byte, b2: Byte, c0: int, c1: int, c2: int, c3: int)
    requires 0 <= c0 < 64 && 0 <= c1 < 64 && 0 <= c2 < 64 && 0 <= c3 < 64
    requires c0 == b0 / 4 && c1 == (b0 % 4) * 16 + b1 / 16 && c2 == (b1 % 16) * 4 + b2 / 64 && c3 == b2 % 64
    ensures EncodeGroup([b0, b1, b2]) == [CharOf(c0), CharOf(c1), CharOf(c2), CharOf(c3)]
  {
  }

  /** The letters of a last group of two bytes. */
  lemma EncodePair(b0: Byte, b1: Byte, c0: int, c1: int, c2: int)
    requires 0 <= c0 < 64 && 0 <= c1 < 64 && 0 <= c2 < 64
    requires c0 == b0 / 4 && c1 == (b0 % 4) * 16 + b1 / 16 && c2 == (b1 % 16) * 4
    ensures EncodeGroup([b0, b1]) == [CharOf(c0), CharOf(c1), CharOf(c2), '=']
  {
  }

  /** The letters of a last group of one byte. */
  lemma EncodeSingle(b0: Byte, c0: int, c1: int)
    requires 0 <= c0 < 64 && 0 <= c1 < 64
    requires c0 == b0 / 4 && c1 == (b0 % 4) * 16
    ensures EncodeGroup([b0]) == [CharOf(c0), CharOf(c1), '=', '=']
  {
  }

  /** A full group of three bytes decodes back, whether or not it is the last. */
  lemma FullGroupRoundTrip(b0: Byte, b1: Byte, b2: Byte, last: bool)
    ensures DecodeGroup(EncodeGroup([b0, b1, b2]), last) == Ok([b0, b1, b2])
  {
    var c0, c1, c2, c3 := b0 / 4, (b0 % 4) * 16 + b1 / 16, (b1 % 16) * 4 + b2 / 64, b2 % 64;
    SixBitDigits(b0, b1, b2);
    assert [c0 * 4 + c1 / 16, (c1 % 16) * 16 + c2 / 4, (c2 % 4) * 64 + c3] == [b0, b1, b2];
    EncodeFull(b0, b1, b2, c0, c1, c2, c3);
    DecodeFourLetters(c0, c1, c2, c3, last);
  }

  /** A last group of two bytes, written with one '=', decodes back. */
  lemma PairGroupRoundTrip(b0: Byte, b1: Byte)
    ensures DecodeGroup(EncodeGroup([b0, b1]), true) == Ok([b0, b1])
  {
    var c0, c1, c2 := b0 / 4, (b0 % 4) * 16 + b1 / 16, (b1 % 16) * 4;
    SixBitDigits(b0, b1, 0);
    assert [c0 * 4 + c1 / 16, (c1 % 16) * 16 + c2 / 4] == [b0, b1];
    EncodePair(b0, b1, c0, c1, c2);
    DecodeThreeLetters(c0, c1, c2);
  }

  /** A last group of one byte, written with two '=', decodes back. */
  lemma SingleGroupRoundTrip(b0: Byte)
    ensures DecodeGroup(EncodeGroup([b0]), true) == Ok([b0])
  {
    var c0, c1 := b0 / 4, (b0 % 4) * 16;
    SixBitDigits(b0, 0, 0);
    assert [c0 * 4 + c1 / 16] == [b0];
    EncodeSingle(b0, c0, c1);
    DecodeTwoLetters(c0, c1);
  }

  lemma GroupRoundTrip(b: seq<Byte>, last: bool)
    requires 1 <= |b| <= 3
    requires |b| < 3 ==> last
    ensures DecodeGroup(EncodeGroup(b), last) == Ok(b)
  {
    if |b| == 1 {
      assert b == [b[0]];
      SingleGroupRoundTrip(b[0]);
    } else if |b| == 2 {
      assert b == [b[0], b[1]];
      PairGroupRoundTrip(b[0], b[1]);
    } else {
      assert b == [b[0], b[1], b[2]];
      FullGroupRoundTrip(b[0], b[1], b[2], last);
    }
  }

  /** Decoding proceeds group by group. */
  lemma DecodeGroups(head: string, rest: string, h: seq<Byte>, t: seq<Byte>)
    requires |head| == 4
    requires DecodeGroup(head, rest == []) == Ok(h)
    requires Decode(rest) == Ok(t)
    ensures Decode(head + rest) == Ok(h + t)
  {
    var text := head + rest;
    assert text[..4] == head && text[4..] == rest;
  }

  /** Decoding what `b64encode` produced gives back the bytes. */
  lemma {:induction false} DecodeEncode(data: seq<Byte>)
    ensures Decode(Encode(data)) == Ok(data)
    decreases |data|
  {
    if |data| == 0 {
    } else if |data| <= 3 {
      GroupRoundTrip(data, true);
      DecodeGroups(EncodeGroup(data), [], data, []);
      assert EncodeGroup(data) + [] == EncodeGroup(data);
      assert data + [] == data;
    } else {
      var rest := Encode(data[3..]);
      assert |rest| > 0;
      GroupRoundTrip(data[..3], false);
      DecodeEncode(data[3..]);
      DecodeGroups(EncodeGroup(data[..3]), rest, data[..3], data[3..]);
      assert data[..3] + data[3..] == data;
    }
  }

  /** Text already made of alphabet letters and '=' passes the discarding step unchanged. */
  lemma {:induction false} DiscardKeepsAlphabet(text: string)
    requires forall i | 0 <= i < |text| :: IsAlphabetChar(text[i]) || text[i] == '='
    ensures Discard(text) == text
  {
    if text != [] {
      DiscardKeepsAlphabet(text[1..]);
    }
  }

  /** The lenient decoder inverts the encoder even with foreign ASCII characters in front. */
  lemma LenientDecodeSkipsPrefix(junk: string, data: seq<Byte>)
    requires forall i | 0 <= i < |junk| :: !IsAlphabetChar(junk[i]) && junk[i] != '=' && junk[i] as int < 128
    ensures LenientDecode(junk + Encode(data)) == Ok(data)
  {
    var text := Encode(data);
    assert IsAscii(junk + text) by {
      forall i | 0 <= i < |junk + text|
        ensures (junk + text)[i] as int < 128
      {
        if i >= |junk| {
          assert (junk + text)[i] == text[i - |junk|];
        }
      }
    }
    DiscardSkips(junk, text);
    DiscardKeepsAlphabet(text);
    DecodeEncode(data);
  }

  lemma {:induction false} DiscardSkips(junk: string, text: string)
    requires forall i | 0 <= i < |junk| :: !IsAlphabetChar(junk[i]) && junk[i] != '='
    ensures Discard(junk + text) == Discard(text)
  {
    if junk != [] {
      assert (junk + text)[0] == junk[0];
      assert !IsAlphabetChar(junk[0]) && junk[0] != '=';
      assert (junk + text)[1..] == junk[1..] + text;
      assert forall i | 0 <= i < |junk[1..]| :: junk[1..][i] == junk[i + 1];
      DiscardSkips(junk[1..], text);
    } else {
      assert junk + text == text;
    }
  }

  /**
   * Discarding works character by character: the letters and '=' of a text are kept, in
   * order, wherever the other characters stand between them.
   */
  lemma {:induction false} DiscardAppend(a: string, b: string)
    ensures Discard(a + b) == Discard(a) + Discard(b)
  {
    if a != [] {
      assert (a + b)[0] == a[0];
      assert (a + b)[1..] == a[1..] + b;
      DiscardAppend(a[1..], b);
    } else {
      assert a + b == b;
    }
  }

  /** A single character is kept exactly when it is a letter of the alphabet or '='. */
  lemma DiscardOne(c: char)
    ensures Discard([c]) == (if IsAlphabetChar(c) || c == '=' then [c] else [])
  {
    assert [c][1..] == [];
  }

  /** The test vectors of section 10 of RFC 4648 of at most one group. */
  lemma EncodeTestVectorsShort()
    ensures Encode([]) == ""
    ensures Encode([102]) == "Zg=="
    ensures Encode([102, 111]) == "Zm8="
    ensures Encode([102, 111, 111]) == "Zm9v"
  {
    assert CharOf(25) == 'Z' && CharOf(38) == 'm' && CharOf(32) == 'g' && CharOf(60) == '8';
    assert CharOf(61) == '9' && CharOf(47) == 'v';
  }

  /** A whole group in front encodes on its own. */
  lemma EncodeFirstGroup(first: seq<Byte>, rest: seq<Byte>)
    requires |first| == 3 && |rest| > 0
    ensures Encode(first + rest) == Encode(first) + Encode(rest)
  {
    assert (first + rest)[..3] == first && (first + rest)[3..] == rest;
  }

  /** The last groups of the two-group test vectors of section 10 of RFC 4648. */
  lemma EncodeTestVectorsBar()
    ensures Encode([98]) == "Yg=="
    ensures Encode([98, 97]) == "YmE="
    ensures Encode([98, 97, 114]) == "YmFy"
  {
    assert CharOf(24) == 'Y' && CharOf(32) == 'g' && CharOf(38) == 'm' && CharOf(4) == 'E';
    assert CharOf(5) == 'F' && CharOf(50) == 'y';
  }

  /** The test vectors of section 10 of RFC 4648 of two groups: "foo" and then "b" to "bar". */
  lemma EncodeTestVectorsLong()
    ensures Encode([102, 111, 111, 98]) == "Zm9vYg=="
    ensures Encode([102, 111, 111, 98, 97]) == "Zm9vYmE="
    ensures Encode([102, 111, 111, 98, 97, 114]) == "Zm9vYmFy"
  {
    var foo: seq<Byte> := [102, 111, 111];
    var b: seq<Byte>, ba: seq<Byte>, bar: seq<Byte> := [98], [98, 97], [98, 97, 114];
    assert foo + b == [102, 111, 111, 98];
    assert foo + ba == [102, 111, 111, 98, 97];
    assert foo + bar == [102, 111, 111, 98, 97, 114];
    EncodeTestVectorsShort();
    EncodeTestVectorsBar();
    EncodeFirstGroup(foo, b);
    EncodeFirstGroup(foo, ba);
    EncodeFirstGroup(foo, bar);
  }

  /** The strict decoder rejects any text whose length is not a multiple of four. */
  lemma {:induction false} StrictDecodeNeedsWholeGroups(text: string)
    requires |text| % 4 != 0
    ensures Decode(text).Err?
    decreases |text|
  {
    if |text| >= 4 {
      assert |text[4..]| % 4 != 0;
      StrictDecodeNeedsWholeGroups(text[4..]);
    }
  }
}
