/**
 * The 32-symbol Bech32 alphabet (BIP-173, "Bech32"), the 128-entry reverse
 * lookup table over 7-bit codes with sentinel 127, the dictionary-based
 * character decoder and the range decoder `decodeCharactersBech32`.
 */
module Charset {
  import opened Types

  const ALPHABET: string := "qpzry9x8gf2tvdw0s3jn54khce6mua7l"

  /** The ASCII codes of ALPHABET: symbol value i is written as CHARSET[i]. */
  const CHARSET: seq<Byte> := [113, 112, 122, 114, 121, 57, 120, 56, 103, 102, 50, 116, 118, 100, 119, 48,
                               115, 51, 106, 110, 53, 52, 107, 104, 99, 101, 54, 109, 117, 97, 55, 108]

  /** Table entry of a 7-bit code that is not a symbol. */
  const SENTINEL: Byte := 127

  lemma CharsetSpellsAlphabet()
    ensures |CHARSET| == |ALPHABET| == 32
    ensures forall i :: 0 <= i < 32 ==> CHARSET[i] == ALPHABET[i] as int
  {
  }

  /** No two symbols share a character, so a character names at most one symbol. */
  lemma CharsetDistinct()
    ensures forall i, j :: 0 <= i < j < 32 ==> CHARSET[i] != CHARSET[j]
  {
  }

  /** The characters of the alphabet: the digits but '1', the lower-case letters but 'b', 'i', 'o'. */
  predicate IsSymbolChar(c: int)
  {
    (48 <= c <= 57 && c != 49) || (97 <= c <= 122 && c != 98 && c != 105 && c != 111)
  }

  lemma CharsetMembers(c: int)
    ensures c in CHARSET <==> IsSymbolChar(c)
  {
    if IsSymbolChar(c) {
      assert c in CHARSET;
    }
  }

  /** Every character of the alphabet is one of those. */
  lemma CharsetCharacters(i: nat)
    requires i < 32
    ensures IsSymbolChar(CHARSET[i])
  {
  }

  /** s.find(c): the first index of c in s, or -1. */
  function Find(s: seq<Byte>, c: int): (r: int)
    ensures -1 <= r < |s|
    ensures r >= 0 ==> s[r] == c && forall j :: 0 <= j < r ==> s[j] != c
    ensures r == -1 <==> c !in s
  {
    if s == [] then -1
    else if s[0] == c then 0
    else
      var k := Find(s[1..], c);
      if k < 0 then -1 else k + 1
  }

  // ---------------------------------------------------------------------------
  // The reverse lookup table

  /** The symbol written as c, or SENTINEL when c is not a symbol. */
  function Entry(c: int): (r: Byte)
    ensures IsSymbolChar(c) ==> r < 32 && CHARSET[r] == c
    ensures !IsSymbolChar(c) ==> r == SENTINEL
  {
    CharsetMembers(c);
    if c in CHARSET then
      CharsetDistinct();
      var i: Byte :| i < 32 && CHARSET[i] == c; i
    else SENTINEL
  }

  /** Entry inverts CHARSET: each symbol's character leads back to it. */
  lemma EntryOfSymbol()
    ensures forall i :: 0 <= i < 32 ==> Entry(CHARSET[i]) == i
  {
    CharsetDistinct();
    forall i | 0 <= i < 32
      ensures Entry(CHARSET[i]) == i
    {
      CharsetCharacters(i);
    }
  }

  /** CHARSET.find agrees with Entry on the characters of the alphabet. */
  lemma FindIsEntry(c: int)
    requires IsSymbolChar(c)
    ensures Find(CHARSET, c) == Entry(c)
  {
    CharsetMembers(c);
    CharsetDistinct();
  }

  /** Entry c of the table is Entry(c). */
  function ReverseTable(): (t: seq<Byte>)
    ensures |t| == 128
  {
    seq(128, c => Entry(c))
  }

  /** What the generator promises of the table it prints. */
  predicate IsReverseTable(t: seq<int>)
  {
    && |t| == 128
    && (forall i :: 0 <= i < 32 ==> t[CHARSET[i]] == i)
    && (forall c :: 0 <= c < 128 && !IsSymbolChar(c) ==> t[c] == SENTINEL as int)
  }

  /** ReverseTable meets that promise. */
  lemma ReverseTableMeets()
    ensures IsReverseTable(ReverseTable())
  {
    var r := ReverseTable();
    EntryOfSymbol();
    forall i | 0 <= i < 32
      ensures r[CHARSET[i]] == i
    {
      assert r[CHARSET[i]] == Entry(CHARSET[i]);
    }
    forall c | 0 <= c < 128 && !IsSymbolChar(c)
      ensures r[c] == SENTINEL as int
    {
      assert r[c] == Entry(c);
    }
  }

  /** ... and it is the only table that does. */
  lemma ReverseTableUnique(t: seq<int>)
    requires IsReverseTable(t)
    ensures t == ReverseTable()
  {
    var r := ReverseTable();
    forall c | 0 <= c < 128
      ensures t[c] == r[c]
    {
      assert r[c] == Entry(c);
      if IsSymbolChar(c) {
        var i := Entry(c);
        assert CHARSET[i] == c;
      }
    }
  }

  /**
   * The generator: a table of 128 sentinels, then for each symbol i the
   * entry at the code of CHARSET[i] set to i.
   */
  method BuildReverseCharset() returns (table: seq<Byte>)
    ensures IsReverseTable(table)
    ensures table == ReverseTable()
  {
    var r := new Byte[128](_ => SENTINEL);
    assert r[..] == Stage(0);
    for i := 0 to |CHARSET|
      invariant r[..] == Stage(i)
    {
      StageStep(i);
      r[CHARSET[i]] := i;
    }
    table := r[..];
    StageComplete();
    ReverseTableMeets();
  }

  /** The table once the first i characters of the alphabet have been entered. */
  function Stage(i: nat): (t: seq<Byte>)
    ensures |t| == 128
  {
    seq(128, c => if Entry(c) < i then Entry(c) else SENTINEL)
  }

  /** Entering character i adds exactly its own entry. */
  lemma StageStep(i: nat)
    requires i < 32
    ensures CHARSET[i] < 128 && Stage(i)[CHARSET[i] := i] == Stage(i + 1)
  {
    EntryOfSymbol();
    CharsetCharacters(i);
    var c0 := CHARSET[i];
    var before, after := Stage(i)[c0 := i], Stage(i + 1);
    forall c | 0 <= c < 128
      ensures before[c] == after[c]
    {
      if c != c0 && IsSymbolChar(c) {
        assert CHARSET[Entry(c)] == c;
      }
    }
  }

  /** After all 32 characters the table is ReverseTable. */
  lemma StageComplete()
    ensures Stage(32) == ReverseTable()
  {
    forall c | 0 <= c < 128
      ensures Stage(32)[c] == ReverseTable()[c]
    {
      assert ReverseTable()[c] == Entry(c);
    }
  }

  /** A non-sentinel entry names the symbol written as its index. */
  lemma ReverseTableInverts(c: nat)
    requires c < 128
    ensures ReverseTable()[c] != SENTINEL ==> ReverseTable()[c] < 32 && CHARSET[ReverseTable()[c]] == c
    ensures ReverseTable()[c] == SENTINEL <==> c !in CHARSET
  {
    CharsetMembers(c);
    assert ReverseTable()[c] == Entry(c);
  }

  /** Every entry is a symbol value or the sentinel. */
  lemma ReverseTableEntries(c: nat)
    requires c < 128
    ensures ReverseTable()[c] < 32 || ReverseTable()[c] == SENTINEL
  {
    assert ReverseTable()[c] == Entry(c);
  }

  /** Upper-case letters and '1', 'b', 'i', 'o' are not symbols. */
  lemma ReverseTableExcluded(c: nat)
    requires c < 128
    requires IsUpper(c) || c in [49, 98, 105, 111]
    ensures ReverseTable()[c] == SENTINEL
  {
    assert ReverseTable()[c] == Entry(c);
  }

  // ---------------------------------------------------------------------------
  // Characters and symbol values

  predicate AllSymbols(s: seq<Byte>)
  {
    forall k :: 0 <= k < |s| ==> IsSymbolChar(s[k])
  }

  predicate AllBelow32(d: seq<Byte>)
  {
    forall k :: 0 <= k < |d| ==> d[k] < 32
  }

  /** The characters of a sequence of symbol values. */
  function ToChars(d: seq<Byte>): (s: seq<Byte>)
    requires AllBelow32(d)
    ensures |s| == |d| && AllSymbols(s)
  {
    seq(|d|, k requires 0 <= k < |d| => CharsetCharacters(d[k]); CHARSET[d[k]])
  }

  /** The symbol values of a string of symbols ([CHARSET.find(x) for x in s], by FindIsEntry). */
  function SymbolsOf(s: seq<Byte>): (d: seq<Byte>)
    requires AllSymbols(s)
    ensures |d| == |s| && AllBelow32(d)
  {
    seq(|s|, k requires 0 <= k < |s| => Entry(s[k]))
  }

  lemma SymbolsOfChars(d: seq<Byte>)
    requires AllBelow32(d)
    ensures SymbolsOf(ToChars(d)) == d
  {
    EntryOfSymbol();
    forall k | 0 <= k < |d|
      ensures SymbolsOf(ToChars(d))[k] == d[k]
    {
      assert ToChars(d)[k] == CHARSET[d[k]];
    }
  }

  lemma CharsOfSymbols(s: seq<Byte>)
    requires AllSymbols(s)
    ensures ToChars(SymbolsOf(s)) == s
  {
  }

  /** Decoding symbol by symbol commutes with slicing. */
  lemma SymbolsOfSlice(s: seq<Byte>, start: nat, stop: nat)
    requires AllSymbols(s) && start <= stop <= |s|
    ensures AllSymbols(s[start..stop]) && SymbolsOf(s[start..stop]) == SymbolsOf(s)[start..stop]
  {
  }

  // ---------------------------------------------------------------------------
  // The dictionary decoder

  /** {ch: i for (i, ch) in enumerate(CHARSET)} */
  function ReverseMap(): (m: map<Byte, Byte>)
    ensures forall c :: c in m <==> IsSymbolChar(c)
    ensures forall c :: c in m ==> m[c] < 32 && CHARSET[m[c]] == c
  {
    CharsetDistinct();
    forall c ensures c in CHARSET <==> IsSymbolChar(c) {
      CharsetMembers(c);
    }
    map i | 0 <= i < 32 :: CHARSET[i] := i as Byte
  }

  /** The dictionary and the table agree on every 7-bit code. */
  lemma ReverseMapMatchesTable(c: nat)
    requires c < 128
    ensures c in ReverseMap() <==> ReverseTable()[c] != SENTINEL
    ensures c in ReverseMap() ==> ReverseMap()[c] == ReverseTable()[c]
  {
    var m := ReverseMap();
    assert ReverseTable()[c] == Entry(c);
    if c in m {
      EntryOfSymbol();
      assert Entry(CHARSET[m[c]]) == m[c];
    }
  }

  /** What decode needs of its dictionary: a key for every symbol character and no other. */
  ghost predicate IsReverseMap(m: map<Byte, Byte>)
  {
    && (forall c :: c in m <==> IsSymbolChar(c))
    && (forall c :: c in m ==> m[c] < 32 && CHARSET[m[c]] == c)
  }

  /**
   * decode(a): looks every character up in the dictionary; None as soon as
   * one is missing, otherwise the symbol values in order.
   */
  method DecodeWithMap(a: seq<Byte>) returns (r: Option<seq<Byte>>)
    ensures r.None? <==> exists k :: 0 <= k < |a| && !IsSymbolChar(a[k])
    ensures r.Some? ==> |r.value| == |a| && forall k :: 0 <= k < |a| ==> r.value[k] < 32 && CHARSET[r.value[k]] == a[k]
  {
    r := DecodeWith(ReverseMap(), a);
  }

  method DecodeWith(m: map<Byte, Byte>, a: seq<Byte>) returns (r: Option<seq<Byte>>)
    requires IsReverseMap(m)
    ensures r.None? <==> exists k :: 0 <= k < |a| && !IsSymbolChar(a[k])
    ensures r.Some? ==> |r.value| == |a| && forall k :: 0 <= k < |a| ==> r.value[k] < 32 && CHARSET[r.value[k]] == a[k]
  {
    var b: seq<Byte> := [];
    for i := 0 to |a|
      invariant |b| == i
      invariant forall k :: 0 <= k < i ==> IsSymbolChar(a[k]) && b[k] < 32 && CHARSET[b[k]] == a[k]
    {
      if a[i] !in m {
        return None;
      }
      b := b + [m[a[i]]];
    }
    return Some(b);
  }

  /** A successful decode is exactly SymbolsOf. */
  lemma DecodeWithMapIsSymbolsOf(a: seq<Byte>, b: seq<Byte>)
    requires |b| == |a| && forall k :: 0 <= k < |a| ==> b[k] < 32 && CHARSET[b[k]] == a[k]
    ensures AllSymbols(a) && b == SymbolsOf(a)
  {
    EntryOfSymbol();
    forall k | 0 <= k < |a|
      ensures IsSymbolChar(a[k]) && b[k] == SymbolsOf(a)[k]
    {
      CharsetCharacters(b[k]);
    }
  }

  /**
   * decodeCharactersBech32(data, start, stop): the symbol values of
   * data[start..stop], looked up in the reverse table; bytes of 128 and above
   * are refused before the lookup.
   */
  method DecodeCharacters(data: seq<Byte>, start: nat, stop: nat) returns (r: seq<Byte>, err: DecodeError)
    requires start <= stop <= |data|
    ensures err == NoError <==> AllSymbols(data[start..stop])
    ensures err == NoError ==> r == SymbolsOf(data[start..stop])
    ensures err != NoError ==> err == NotBech32Character && r == []
  {
    r := [];
    var i := start;
    while i < stop
      invariant start <= i <= stop
      invariant AllSymbols(data[start..i]) && r == SymbolsOf(data[start..i])
    {
      var ok;
      r, ok := DecodeNext(data, start, stop, i, r);
      if !ok {
        return [], NotBech32Character;
      }
      i := i + 1;
    }
    err := NoError;
  }

  /** One iteration: the symbol of data[i] appended, or the range refused. */
  method DecodeNext(data: seq<Byte>, start: nat, stop: nat, i: nat, r: seq<Byte>) returns (r': seq<Byte>, ok: bool)
    requires start <= i < stop <= |data|
    requires AllSymbols(data[start..i]) && r == SymbolsOf(data[start..i])
    ensures ok ==> AllSymbols(data[start..i + 1]) && r' == SymbolsOf(data[start..i + 1])
    ensures !ok ==> !AllSymbols(data[start..stop])
  {
    var v;
    v, ok := LookupSymbol(data[i]);
    if !ok {
      NonSymbolInRange(data, start, stop, i);
      return r, false;
    }
    SymbolsOfSnoc(data, start, i);
    r' := r + [v];
  }

  /** One character through the table: bytes of 128 and above and sentinel entries are refused. */
  method LookupSymbol(c: Byte) returns (v: Byte, ok: bool)
    ensures ok <==> IsSymbolChar(c)
    ensures ok ==> v == Entry(c)
  {
    var table := ReverseTable();
    if c >= 128 || table[c] == SENTINEL {
      return 0, false;
    }
    TableLookup(c);
    return table[c], true;
  }

  /** Looking a 7-bit code up in the table gives its Entry. */
  lemma TableLookup(c: Byte)
    requires c < 128
    ensures ReverseTable()[c] == Entry(c)
    ensures ReverseTable()[c] == SENTINEL <==> !IsSymbolChar(c)
  {
  }

  /** One character outside the alphabet spoils the whole range. */
  lemma NonSymbolInRange(data: seq<Byte>, start: nat, stop: nat, i: nat)
    requires start <= i < stop <= |data| && !IsSymbolChar(data[i])
    ensures !AllSymbols(data[start..stop])
  {
    assert data[start..stop][i - start] == data[i];
  }

  /** Decoding one more character appends its symbol. */
  lemma SymbolsOfSnoc(data: seq<Byte>, start: nat, i: nat)
    requires start <= i < |data| && AllSymbols(data[start..i]) && IsSymbolChar(data[i])
    ensures AllSymbols(data[start..i + 1])
    ensures SymbolsOf(data[start..i + 1]) == SymbolsOf(data[start..i]) + [Entry(data[i])]
  {
    var a, b := data[start..i], data[start..i + 1];
    assert b == a + [data[i]];
    SymbolsAppend(a, data[i]);
  }

  lemma SymbolsAppend(a: seq<Byte>, c: Byte)
    requires AllSymbols(a) && IsSymbolChar(c)
    ensures AllSymbols(a + [c])
    ensures SymbolsOf(a + [c]) == SymbolsOf(a) + [Entry(c)]
  {
    var b := a + [c];
    forall k | 0 <= k < |b|
      ensures IsSymbolChar(b[k])
    {
      if k < |a| {
        assert b[k] == a[k];
      }
    }
    var d := SymbolsOf(a) + [Entry(c)];
    assert forall k :: 0 <= k < |b| ==> SymbolsOf(b)[k] == d[k];
  }

  /** With every character valid, a range decodes to the slice of the whole decoding. */
  lemma DecodeCharactersSlice(data: seq<Byte>, start: nat, stop: nat)
    requires AllSymbols(data) && start <= stop <= |data|
    ensures AllSymbols(data[start..stop])
    ensures SymbolsOf(data[start..stop]) == SymbolsOf(data)[start..stop]
    ensures |SymbolsOf(data[start..stop])| == stop - start
  {
    SymbolsOfSlice(data, start, stop);
  }

  lemma RotatedAt(s: seq<Byte>, k: nat, i: nat)
    requires k <= |s| && i < |s|
    ensures (s[k..] + s[..k])[i] == if i + k < |s| then s[i + k] else s[i + k - |s|]
  {
    if i < |s| - k {
      assert (s[k..] + s[..k])[i] == s[k..][i];
    } else {
      assert (s[k..] + s[..k])[i] == s[..k][i - (|s| - k)];
    }
  }

  /** The whole alphabet decodes to 0..31. */
  lemma AlphabetDecodes()
    ensures AllSymbols(CHARSET) && SymbolsOf(CHARSET) == seq(32, i => i)
  {
    EntryOfSymbol();
    forall i | 0 <= i < 32
      ensures IsSymbolChar(CHARSET[i])
    {
      CharsetCharacters(i);
    }
  }

  /** Position i of the alphabet rotated by ten holds a symbol of value (i + 10) mod 32. */
  lemma RotatedEntry(i: nat)
    requires i < 32
    ensures var rot := CHARSET[10..] + CHARSET[..10];
      IsSymbolChar(rot[i]) && Entry(rot[i]) == (i + 10) % 32
  {
    var j := if i < 22 then i + 10 else i - 22;
    assert j == (i + 10) % 32;
    RotatedAt(CHARSET, 10, i);
    EntryAt(j);
  }

  /** The character of symbol j is in the alphabet and leads back to j. */
  lemma EntryAt(j: nat)
    requires j < 32
    ensures IsSymbolChar(CHARSET[j]) && Entry(CHARSET[j]) == j
  {
    CharsetCharacters(j);
    EntryOfSymbol();
  }

  /** The alphabet rotated by ten decodes to 10..31 then 0..9. */
  lemma RotatedAlphabetDecodes()
    ensures AllSymbols(CHARSET[10..] + CHARSET[..10])
    ensures SymbolsOf(CHARSET[10..] + CHARSET[..10]) == seq(32, i => (i + 10) % 32)
  {
    var rot := CHARSET[10..] + CHARSET[..10];
    forall i | 0 <= i < 32
      ensures IsSymbolChar(rot[i]) && Entry(rot[i]) == (i + 10) % 32
    {
      RotatedEntry(i);
    }
  }

  /** "1ab" holds '1' and 'b', and the first UTF-8 byte of U+00FF is 0xc3: none is a symbol. */
  lemma NonSymbolsRejected()
    ensures !AllSymbols([49, 97, 98]) && !AllSymbols([0xc3, 0xbf][0..1])
  {
    assert !IsSymbolChar([49, 97, 98][0]);
    assert !IsSymbolChar([0xc3, 0xbf][0..1][0]);
  }
}
