/** Unpadded base64 (sections 4 and 5 of RFC 4648), as Go's RawStdEncoding and RawURLEncoding print and read it. */
module Base64 {
  import opened Common

  datatype Alphabet = Std | URL

  function Symbol(a: Alphabet, v: int): char
    requires 0 <= v < 64
  {
    if v < 26 then 'A' + v as char
    else if v < 52 then 'a' + (v - 26) as char
    else if v < 62 then '0' + (v - 52) as char
    else if v == 62 then (if a.Std? then '+' else '-')
    else (if a.Std? then '/' else '_')
  }

  /** The value of a symbol; -1 for a character outside the alphabet. */
  function Value(a: Alphabet, c: char): (v: int)
    ensures -1 <= v < 64
  {
    if 'A' <= c <= 'Z' then c as int - 'A' as int
    else if 'a' <= c <= 'z' then c as int - 'a' as int + 26
    else if '0' <= c <= '9' then c as int - '0' as int + 52
    else if c == (if a.Std? then '+' else '-') then 62
    else if c == (if a.Std? then '/' else '_') then 63
    else -1
  }

  type Sextet = v: int | 0 <= v < 64

  /** The 6-bit groups of a byte string; a last group of one or two bytes is filled up with zero bits. */
  function Sextets(b: Bytes): seq<Sextet> {
    if |b| == 0 then []
    else if |b| == 1 then
      var x := b[0] as int;
      [x / 4, x % 4 * 16]
    else if |b| == 2 then
      var x, y := b[0] as int, b[1] as int;
      [x / 4, x % 4 * 16 + y / 16, y % 16 * 4]
    else
      var x, y, z := b[0] as int, b[1] as int, b[2] as int;
      [x / 4, x % 4 * 16 + y / 16, y % 16 * 4 + z / 64, z % 64] + Sextets(b[3..])
  }

  function Print(a: Alphabet, vs: seq<Sextet>): string {
    if vs == [] then "" else [Symbol(a, vs[0])] + Print(a, vs[1..])
  }

  function Encode(a: Alphabet, b: Bytes): string {
    Print(a, Sextets(b))
  }

  /** The decoder skips line breaks. */
  function Strip(s: string): string {
    if s == "" then "" else (if s[0] == '\r' || s[0] == '\n' then "" else [s[0]]) + Strip(s[1..])
  }

  /** The values of the symbols; None when a character is outside the alphabet. */
  function Read(a: Alphabet, s: string): Option<seq<Sextet>> {
    if s == "" then Some([])
    else if Value(a, s[0]) < 0 then None
    else match Read(a, s[1..])
         case Some(vs) => Some([Value(a, s[0])] + vs)
         case None => None
  }

  function First(v: Sextet, w: Sextet): Byte { (v as int * 4 + w as int / 16) as Byte }

  function Second(w: Sextet, x: Sextet): Byte { (w as int % 16 * 16 + x as int / 4) as Byte }

  function Third(x: Sextet, y: Sextet): Byte { (x as int % 4 * 64 + y as int) as Byte }

  /** Groups of four symbols give three bytes; a last group of two or three gives one or two bytes, whatever its unused
      bits are; a last group of one symbol is corrupt. */
  function Assemble(vs: seq<Sextet>): Option<Bytes> {
    if |vs| == 0 then Some([])
    else if |vs| == 1 then None
    else if |vs| == 2 then Some([First(vs[0], vs[1])])
    else if |vs| == 3 then Some([First(vs[0], vs[1]), Second(vs[1], vs[2])])
    else
      match Assemble(vs[4..])
      case None => None
      case Some(rest) => Some([First(vs[0], vs[1]), Second(vs[1], vs[2]), Third(vs[2], vs[3])] + rest)
  }

  function Decode(a: Alphabet, s: string): Option<Bytes> {
    match Read(a, Strip(s))
    case Some(vs) => Assemble(vs)
    case None => None
  }

  lemma {:induction false} SymbolValue(a: Alphabet, v: int)
    requires 0 <= v < 64
    ensures Value(a, Symbol(a, v)) == v
  {
  }

  /** Everything the encoder prints is a symbol of its alphabet, and reads back as the printed value. */
  lemma {:induction false} ReadPrinted(a: Alphabet, vs: seq<Sextet>)
    ensures Read(a, Print(a, vs)) == Some(vs) && |Print(a, vs)| == |vs|
    ensures forall i :: 0 <= i < |vs| ==> Value(a, Print(a, vs)[i]) == vs[i]
  {
    if vs != [] {
      ReadPrinted(a, vs[1..]);
      SymbolValue(a, vs[0]);
      assert Print(a, vs)[1..] == Print(a, vs[1..]);
      assert vs == [vs[0]] + vs[1..];
    }
  }

  lemma {:induction false} StripSymbols(a: Alphabet, s: string)
    requires forall i :: 0 <= i < |s| ==> Value(a, s[i]) >= 0
    ensures Strip(s) == s
  {
    if s != "" {
      assert forall i :: 0 <= i < |s[1..]| ==> s[1..][i] == s[i + 1];
      StripSymbols(a, s[1..]);
      assert Value(a, s[0]) >= 0;
    }
  }

  /** The bits of three bytes, cut into four groups and put together again. */
  lemma {:induction false} Regroup(x: int, y: int, z: int)
    requires 0 <= x < 256 && 0 <= y < 256 && 0 <= z < 256
    ensures x / 4 * 4 + (x % 4 * 16 + y / 16) / 16 == x
    ensures (x % 4 * 16 + y / 16) % 16 * 16 + (y % 16 * 4 + z / 64) / 4 == y
    ensures (y % 16 * 4 + z / 64) % 4 * 64 + z % 64 == z
  {
  }

  lemma {:induction false} RegroupedBytes(x: Byte, y: Byte, z: Byte)
    ensures First(x as int / 4, x as int % 4 * 16 + y as int / 16) == x
    ensures Second(x as int % 4 * 16 + y as int / 16, y as int % 16 * 4 + z as int / 64) == y
    ensures Third(y as int % 16 * 4 + z as int / 64, z as int % 64) == z
  {
    Regroup(x as int, y as int, z as int);
  }

  lemma {:induction false} AssembleGroup(b: Bytes)
    requires |b| >= 3 && Assemble(Sextets(b[3..])) == Some(b[3..])
    ensures Assemble(Sextets(b)) == Some(b)
  {
    RegroupedBytes(b[0], b[1], b[2]);
    assert Sextets(b)[4..] == Sextets(b[3..]);
    assert b == [b[0], b[1], b[2]] + b[3..];
  }

  lemma {:induction false} AssembleTail(b: Bytes)
    requires 1 <= |b| < 3
    ensures Assemble(Sextets(b)) == Some(b)
  {
    hide First;
    hide Second;
    hide Third;
    RegroupedBytes(b[0], if |b| == 2 then b[1] else 0, 0);
    assert |b| == 1 ==> b == [b[0]];
    assert |b| == 2 ==> b == [b[0], b[1]];
  }

  lemma {:induction false} AssembleSextets(b: Bytes)
    ensures Assemble(Sextets(b)) == Some(b)
  {
    if |b| >= 3 {
      AssembleSextets(b[3..]);
      AssembleGroup(b);
    } else if |b| > 0 {
      AssembleTail(b);
    }
  }

  lemma {:induction false} SextetCount(b: Bytes)
    ensures |Sextets(b)| == (4 * |b| + 2) / 3
  {
    if |b| >= 3 {
      SextetCount(b[3..]);
    }
  }

  /** The printed text: its length, and that it holds nothing but symbols of the alphabet. */
  lemma {:induction false} EncodedText(a: Alphabet, b: Bytes)
    ensures |Encode(a, b)| == (4 * |b| + 2) / 3
    ensures forall i :: 0 <= i < |Encode(a, b)| ==> Value(a, Encode(a, b)[i]) >= 0
  {
    ReadPrinted(a, Sextets(b));
    SextetCount(b);
  }

  /** Decoding undoes encoding, for every byte string and both alphabets. */
  lemma {:induction false} RoundTrip(a: Alphabet, b: Bytes)
    ensures Decode(a, Encode(a, b)) == Some(b)
  {
    EncodedText(a, b);
    StripSymbols(a, Encode(a, b));
    ReadPrinted(a, Sextets(b));
    AssembleSextets(b);
  }

  // ---------------------------------------------------------------- the encoding itself

  const UPPER := "ABCDEFGHIJKLMNOPQRSTUVWXYZ"
  const LOWER := "abcdefghijklmnopqrstuvwxyz"
  const DIGITS := "0123456789"

  /** The symbols in their order (tables 1 and 2 of RFC 4648); no other character is one. */
  lemma {:induction false} SymbolTable(a: Alphabet, v: int)
    requires 0 <= v < 64
    ensures var last := if a.Std? then "+/" else "-_";
            Symbol(a, v) == (UPPER + LOWER + DIGITS + last)[v]
  {
    if v < 26 {
      assert Symbol(a, v) == UPPER[v];
    } else if v < 52 {
      assert Symbol(a, v) == LOWER[v - 26];
    } else if v < 62 {
      assert Symbol(a, v) == DIGITS[v - 52];
    }
  }

  function ByteAt(b: Bytes, j: nat): int { if j < |b| then b[j] as int else 0 }

  function ValueAt(a: Alphabet, s: string, j: nat): int { if j < |s| then Value(a, s[j]) else 0 }

  function SextetAt(vs: seq<Sextet>, j: nat): int { if j < |vs| then vs[j] as int else 0 }

  /** The i-th group of three bytes as one number; missing bytes are zero. */
  function ByteGroup(b: Bytes, i: nat): int {
    ByteAt(b, 3 * i) * 65536 + ByteAt(b, 3 * i + 1) * 256 + ByteAt(b, 3 * i + 2)
  }

  /** The i-th group of four symbols as one number; missing symbols are zero. */
  function SymbolGroup(a: Alphabet, s: string, i: nat): int {
    ValueAt(a, s, 4 * i) * 262144 + ValueAt(a, s, 4 * i + 1) * 4096 + ValueAt(a, s, 4 * i + 2) * 64
    + ValueAt(a, s, 4 * i + 3)
  }

  function SextetGroup(vs: seq<Sextet>, i: nat): int {
    SextetAt(vs, 4 * i) * 262144 + SextetAt(vs, 4 * i + 1) * 4096 + SextetAt(vs, 4 * i + 2) * 64
    + SextetAt(vs, 4 * i + 3)
  }

  /** Three bytes and their four symbols are one 24-bit number, and a last group of one or two bytes is filled up with
      four or two zero bits. */
  lemma {:induction false} EncodedGroup(a: Alphabet, b: Bytes, i: nat)
    requires 3 * i < |b|
    ensures |Encode(a, b)| == (4 * |b| + 2) / 3
    ensures SymbolGroup(a, Encode(a, b), i) == ByteGroup(b, i)
  {
    hide Sextets;
    EncodedText(a, b);
    ReadPrinted(a, Sextets(b));
    GroupOfBytes(b, i);
    SameGroup(a, Encode(a, b), Sextets(b), i);
  }

  lemma {:induction false} SameGroup(a: Alphabet, s: string, vs: seq<Sextet>, i: nat)
    requires |s| == |vs| && forall j :: 0 <= j < |s| ==> Value(a, s[j]) == vs[j] as int
    ensures SymbolGroup(a, s, i) == SextetGroup(vs, i)
  {
    hide Value;
  }

  lemma {:induction false} GroupOfBytes(b: Bytes, i: nat)
    requires 3 * i < |b|
    ensures SextetGroup(Sextets(b), i) == ByteGroup(b, i)
  {
    if i > 0 {
      GroupOfBytes(b[3..], i - 1);
      NextGroup(b, Sextets(b)[..4], Sextets(b[3..]), i - 1);
      assert Sextets(b) == Sextets(b)[..4] + Sextets(b[3..]);
    } else {
      FirstGroup(ByteAt(b, 0), ByteAt(b, 1), ByteAt(b, 2));
    }
  }

  lemma {:induction false} NextGroup(b: Bytes, head: seq<Sextet>, vs: seq<Sextet>, i: nat)
    requires |b| >= 3 && |head| == 4
    ensures ByteGroup(b, i + 1) == ByteGroup(b[3..], i) && SextetGroup(head + vs, i + 1) == SextetGroup(vs, i)
  {
    assert forall j: nat {:trigger ByteAt(b[3..], j)} :: ByteAt(b, j + 3) == ByteAt(b[3..], j);
    assert forall j: nat {:trigger SextetAt(vs, j)} :: SextetAt(head + vs, j + 4) == SextetAt(vs, j);
  }

  lemma {:induction false} FirstGroup(x: int, y: int, z: int)
    requires 0 <= x < 256 && 0 <= y < 256 && 0 <= z < 256
    ensures x / 4 * 262144 + (x % 4 * 16 + y / 16) * 4096 + (y % 16 * 4 + z / 64) * 64 + z % 64 ==
            x * 65536 + y * 256 + z
  {
  }

  // ---------------------------------------------------------------- the decoder itself

  ghost predicate OnlySymbols(a: Alphabet, s: string) { forall i :: 0 <= i < |s| ==> Value(a, s[i]) >= 0 }

  lemma {:induction false} ReadExactly(a: Alphabet, s: string)
    ensures Read(a, s).Some? <==> OnlySymbols(a, s)
    ensures Read(a, s).Some? ==>
              |Read(a, s).value| == |s| && forall i :: 0 <= i < |s| ==> Read(a, s).value[i] as int == Value(a, s[i])
  {
    if s != "" {
      ReadExactly(a, s[1..]);
      assert OnlySymbols(a, s) <==> Value(a, s[0]) >= 0 && OnlySymbols(a, s[1..]) by {
        assert s == [s[0]] + s[1..];
      }
    }
  }

  /** How far a group of so many symbols can be above its bytes: the unused bits of a last group. */
  function Unused(symbols: int): int { if symbols == 2 then 65536 else if symbols == 3 then 256 else 1 }

  lemma {:induction false} AssembledLength(vs: seq<Sextet>)
    ensures Assemble(vs).Some? <==> |vs| % 4 != 1
    ensures Assemble(vs).Some? ==> |Assemble(vs).value| == 3 * |vs| / 4
  {
    if |vs| >= 4 {
      AssembledLength(vs[4..]);
    }
  }

  lemma {:induction false} GroupOfSextets(vs: seq<Sextet>, i: nat)
    requires Assemble(vs).Some? && 4 * i < |vs|
    ensures ByteGroup(Assemble(vs).value, i) <= SextetGroup(vs, i) <
            ByteGroup(Assemble(vs).value, i) + Unused(|vs| - 4 * i)
  {
    hide First;
    hide Second;
    hide Third;
    hide ByteGroup;
    hide SextetGroup;
    var b := Assemble(vs).value;
    if i > 0 {
      GroupOfSextets(vs[4..], i - 1);
      assert vs == vs[..4] + vs[4..];
      NextGroup(b, vs[..4], vs[4..], i - 1);
      assert b[3..] == Assemble(vs[4..]).value;
    } else {
      FirstAssembled(vs);
    }
  }

  lemma {:induction false} FirstAssembled(vs: seq<Sextet>)
    requires Assemble(vs).Some? && vs != []
    ensures ByteGroup(Assemble(vs).value, 0) <= SextetGroup(vs, 0) < ByteGroup(Assemble(vs).value, 0) + Unused(|vs|)
  {
    hide First;
    hide Second;
    hide Third;
    var zero: Sextet := 0;
    Recombined(vs[0], if |vs| > 1 then vs[1] else zero, if |vs| > 2 then vs[2] else zero,
               if |vs| > 3 then vs[3] else zero);
  }

  lemma {:induction false} Recombined(v: Sextet, w: Sextet, x: Sextet, y: Sextet)
    ensures First(v, w) as int * 65536 + Second(w, x) as int * 256 + Third(x, y) as int ==
            v * 262144 + w * 4096 + x * 64 + y
    ensures First(v, w) as int * 65536 == v * 262144 + w / 16 * 65536
    ensures First(v, w) as int * 65536 + Second(w, x) as int * 256 == v * 262144 + w * 4096 + x / 4 * 256
  {
  }

  /** A text without line breaks is decoded exactly when it holds symbols only and no last group of one symbol; the
      bytes of a group are its bits, up to the unused bits of a last group. */
  lemma {:induction false} DecodesExactly(a: Alphabet, s: string, i: nat)
    requires '\r' !in s && '\n' !in s
    ensures Decode(a, s).Some? <==> OnlySymbols(a, s) && |s| % 4 != 1
    ensures Decode(a, s).Some? ==> |Decode(a, s).value| == 3 * |s| / 4
    ensures Decode(a, s).Some? && 4 * i < |s| ==>
              ByteGroup(Decode(a, s).value, i) <= SymbolGroup(a, s, i) <
              ByteGroup(Decode(a, s).value, i) + if |s| == 4 * i + 2 then 65536 else if |s| == 4 * i + 3 then 256 else 1
  {
    hide Assemble;
    hide Read;
    hide ByteGroup;
    hide SymbolGroup;
    hide SextetGroup;
    NothingStripped(s);
    ReadExactly(a, s);
    if Read(a, s).Some? {
      var vs := Read(a, s).value;
      AssembledLength(vs);
      SameGroup(a, s, vs, i);
      if Assemble(vs).Some? && 4 * i < |vs| {
        GroupOfSextets(vs, i);
      }
    }
  }

  lemma {:induction false} NothingStripped(s: string)
    requires '\r' !in s && '\n' !in s
    ensures Strip(s) == s
  {
    if s != "" {
      NothingStripped(s[1..]);
      assert s == [s[0]] + s[1..];
    }
  }

  /** A line break changes nothing, wherever it stands. */
  lemma {:induction false} LineBreakSkipped(a: Alphabet, s: string, c: char, t: string)
    requires c == '\r' || c == '\n'
    ensures Decode(a, s + [c] + t) == Decode(a, s + t)
  {
    StripConcat(s, [c] + t);
    StripConcat(s, t);
    assert s + [c] + t == s + ([c] + t);
    assert ([c] + t)[1..] == t;
    assert Strip([c] + t) == "" + Strip(t) == Strip(t);
  }

  lemma {:induction false} StripConcat(s: string, t: string)
    ensures Strip(s + t) == Strip(s) + Strip(t)
  {
    if s != "" {
      StripConcat(s[1..], t);
      assert (s + t)[1..] == s[1..] + t;
    } else {
      assert s + t == t;
    }
  }
}
