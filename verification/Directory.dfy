/** The directory: a table of fixed-length entries that map file names to header sectors. */
module Directories {
  import opened Bytes
  import opened OpenFiles

  const FileNameMaxLen: nat := 9
  const EntrySize: nat := 20
  const NameSize: nat := 10

  /** The bytes of a name field: nine characters and one more for a terminator. */
  type NameField = s: seq<Byte> | |s| == NameSize witness [0, 0, 0, 0, 0, 0, 0, 0, 0, 0]

  datatype DirectoryEntry = DirectoryEntry(inUse: bool, sector: Int32, name: NameField)

  /** The key of a C string: its characters up to the terminator, at most `n` of them. */
  function Prefix(s: seq<Byte>, n: nat): (k: seq<Byte>) {
    if n == 0 || s == [] || s[0] == 0 then [] else [s[0]] + Prefix(s[1..], n - 1)
  }

  function Key(name: seq<Byte>): (k: seq<Byte>) {
    Prefix(name, FileNameMaxLen)
  }

  function CharAt(s: seq<Byte>, i: nat): Byte {
    if i < |s| then s[i] else 0
  }

  /** The library routine strncmp, up to the sign of its result. */
  function Strncmp(a: seq<Byte>, b: seq<Byte>, n: nat): (diff: int)
    decreases n
  {
    if n == 0 then 0
    else if CharAt(a, 0) != CharAt(b, 0) then (CharAt(a, 0) as int) - (CharAt(b, 0) as int)
    else if CharAt(a, 0) == 0 then 0
    else Strncmp(a[1..], b[1..], n - 1)
  }

  /** strncmp finds two names equal exactly when their keys are the same. */
  lemma {:induction false} StrncmpIsKeyEquality(a: seq<Byte>, b: seq<Byte>, n: nat)
    ensures Strncmp(a, b, n) == 0 <==> Prefix(a, n) == Prefix(b, n)
    decreases n
  {
    if n > 0 && CharAt(a, 0) == CharAt(b, 0) && CharAt(a, 0) != 0 {
      StrncmpIsKeyEquality(a[1..], b[1..], n - 1);
      assert Prefix(a, n)[1..] == Prefix(a[1..], n - 1) && Prefix(b, n)[1..] == Prefix(b[1..], n - 1);
    }
  }

  /** Where a C string ends: at its first terminator, or after its last character. */
  ghost function Terminator(s: seq<Byte>): (t: nat)
    ensures t <= |s| && (t < |s| ==> s[t] == 0) && forall i :: 0 <= i < t ==> s[i] != 0
  {
    if s == [] || s[0] == 0 then 0 else 1 + Terminator(s[1..])
  }

  lemma {:induction false} PrefixIs(s: seq<Byte>, n: nat)
    ensures |Prefix(s, n)| == Min(n, Terminator(s)) && Prefix(s, n) == s[..Min(n, Terminator(s))]
  {
    if n > 0 && s != [] && s[0] != 0 {
      PrefixIs(s[1..], n - 1);
    }
  }

  /** A key is the name up to its terminator, or its first nine characters if there are more. */
  lemma KeyIs(name: seq<Byte>)
    ensures |Key(name)| == Min(9, Terminator(name))
    ensures forall i :: 0 <= i < |Key(name)| ==> Key(name)[i] == name[i] != 0
  {
    PrefixIs(name, FileNameMaxLen);
  }

  /** Two names agree on their first nine characters, as far as the first one goes. */
  ghost predicate SameName(a: seq<Byte>, b: seq<Byte>) {
    forall i: nat :: i < 9 && (forall j: nat :: j < i ==> CharAt(a, j) != 0) ==> CharAt(a, i) == CharAt(b, i)
  }

  /** The keys of two names are equal exactly when the names agree on nine characters. */
  lemma KeyEquality(a: seq<Byte>, b: seq<Byte>)
    ensures Key(a) == Key(b) <==> SameName(a, b)
  {
    KeyIs(a);
    KeyIs(b);
    if SameName(a, b) {
      SameLength(a, b);
    }
    if Key(a) == Key(b) {
      SameCharacters(a, b);
    }
  }

  lemma AgreeAt(a: seq<Byte>, b: seq<Byte>, i: nat)
    requires SameName(a, b) && i < 9 && i <= Terminator(a)
    ensures CharAt(a, i) == CharAt(b, i)
  {
    forall j: nat | j < i ensures CharAt(a, j) != 0 {
      assert a[j] != 0;
    }
  }

  lemma SameLength(a: seq<Byte>, b: seq<Byte>)
    requires SameName(a, b)
    ensures Key(a) == Key(b)
  {
    var n := Min(9, Terminator(a));
    forall i: nat | i < n ensures i < Terminator(b) && a[i] == b[i] {
      AgreeUpTo(a, b, i);
    }
    if n > 0 {
      AgreeUpTo(a, b, n - 1);
    }
    if n < 9 {
      AgreeAt(a, b, n);
    }
    KeyIs(a);
    KeyIs(b);
  }

  lemma {:induction false} AgreeUpTo(a: seq<Byte>, b: seq<Byte>, i: nat)
    requires SameName(a, b) && i < 9 && i < Terminator(a)
    ensures i < Terminator(b) && a[i] == b[i]
  {
    AgreeAt(a, b, i);
    if i > 0 {
      AgreeUpTo(a, b, i - 1);
    }
  }

  lemma SameCharacters(a: seq<Byte>, b: seq<Byte>)
    requires Key(a) == Key(b)
    ensures SameName(a, b)
  {
    KeyIs(a);
    KeyIs(b);
    var n := |Key(a)|;
    forall i: nat | i < 9 && forall j: nat :: j < i ==> CharAt(a, j) != 0 ensures CharAt(a, i) == CharAt(b, i) {
      if i < n {
        assert Key(a)[i] == Key(b)[i];
      } else {
        assert n < i ==> CharAt(a, n) == 0;
      }
    }
  }

  /** A key is its own key. */
  lemma KeyOfKey(name: seq<Byte>)
    ensures Key(Key(name)) == Key(name)
  {
    KeyIs(name);
    KeyIs(Key(name));
  }

  /** The library routine strncpy: copy up to the terminator, pad with zeros, leave the rest alone. */
  function Strncpy(field: NameField, name: seq<Byte>): (r: NameField) {
    Padded(name, FileNameMaxLen) + [field[FileNameMaxLen]]
  }

  function Padded(name: seq<Byte>, n: nat): (r: seq<Byte>)
    ensures |r| == n
    decreases n
  {
    if n == 0 then []
    else if CharAt(name, 0) == 0 then seq(n, i => 0)
    else [name[0]] + Padded(name[1..], n - 1)
  }

  lemma {:induction false} PaddedKey(name: seq<Byte>, n: nat, tail: seq<Byte>)
    ensures Prefix(Padded(name, n) + tail, n) == Prefix(name, n)
    decreases n
  {
    if n > 0 && CharAt(name, 0) != 0 {
      PaddedKey(name[1..], n - 1, tail);
      assert (Padded(name, n) + tail)[1..] == Padded(name[1..], n - 1) + tail;
    }
  }

  lemma StoredNameKey(field: NameField, name: seq<Byte>)
    ensures Key(Strncpy(field, name)) == Key(name)
  {
    PaddedKey(name, FileNameMaxLen, [field[FileNameMaxLen]]);
  }

  /** An entry in memory: a one-byte bool, three bytes of padding, the sector, the name, two bytes of padding. */
  function EncodeEntry(e: DirectoryEntry): (s: seq<Byte>)
    ensures |s| == EntrySize
  {
    [if e.inUse then 1 else 0, 0, 0, 0] + EncodeWord(Unsigned(e.sector)) + e.name + [0, 0]
  }

  function DecodeEntry(s: seq<Byte>): (e: DirectoryEntry)
    requires |s| == EntrySize
  {
    DirectoryEntry(s[0] != 0, Signed(DecodeWord(s[4..8])), s[8..18])
  }

  lemma EntryRoundTrip(e: DirectoryEntry)
    ensures DecodeEntry(EncodeEntry(e)) == e
  {
  }

  function EncodeTable(t: seq<DirectoryEntry>): (s: seq<Byte>)
    ensures |s| == EntrySize * |t|
  {
    seq(EntrySize * |t|, j requires 0 <= j < EntrySize * |t| => EncodeEntry(t[j / EntrySize])[j % EntrySize])
  }

  function DecodeTable(s: seq<Byte>, n: nat): (t: seq<DirectoryEntry>)
    requires EntrySize * n <= |s|
    ensures |t| == n
  {
    seq(n, k requires 0 <= k < n => DecodeEntry(s[EntrySize * k..EntrySize * k + EntrySize]))
  }

  lemma TableRoundTrip(t: seq<DirectoryEntry>, s: seq<Byte>)
    requires EncodeTable(t) <= s
    ensures DecodeTable(s, |t|) == t
  {
    forall k | 0 <= k < |t| ensures DecodeTable(s, |t|)[k] == t[k] {
      StoredEntry(t, s, k);
      EntryRoundTrip(t[k]);
    }
  }

  lemma StoredEntry(t: seq<DirectoryEntry>, s: seq<Byte>, k: nat)
    requires EncodeTable(t) <= s && k < |t|
    ensures s[EntrySize * k..EntrySize * k + EntrySize] == EncodeEntry(t[k])
  {
    forall j | 0 <= j < EntrySize ensures s[EntrySize * k + j] == EncodeEntry(t[k])[j] {
      assert EncodeTable(t)[EntrySize * k + j] == s[EntrySize * k + j];
      InEntry(k, j);
    }
  }

  lemma InEntry(k: nat, j: nat)
    requires j < EntrySize
    ensures (EntrySize * k + j) / EntrySize == k && (EntrySize * k + j) % EntrySize == j
  {
  }

  /** Where the fields of entry `k` are stored: the flag at byte 20k, the sector in little-endian order from byte 20k + 4
      on, and the name from byte 20k + 8 on. */
  lemma TableLayout(t: seq<DirectoryEntry>, k: nat, j: nat)
    requires k < |t|
    ensures EncodeTable(t)[20 * k] == if t[k].inUse then 1 else 0
    ensures j < 4 ==> EncodeTable(t)[20 * k + 4 + j] == Unsigned(t[k].sector) / Pow256(j) % 256
    ensures j < 10 ==> EncodeTable(t)[20 * k + 8 + j] == t[k].name[j]
  {
    StoredEntry(t, EncodeTable(t), k);
    var e := EncodeTable(t)[EntrySize * k..EntrySize * k + EntrySize];
    assert e[0] == EncodeTable(t)[20 * k];
    if j < 4 {
      assert e[4 + j] == EncodeTable(t)[20 * k + 4 + j];
      EncodedDigit(Unsigned(t[k].sector), j);
    }
    if j < 10 {
      assert e[8 + j] == EncodeTable(t)[20 * k + 8 + j];
    }
  }

  /** The first entry in use with key `k`, or the length of the table. */
  function Lookup(t: seq<DirectoryEntry>, k: seq<Byte>): (i: nat)
    ensures i <= |t|
    ensures i < |t| ==> t[i].inUse && Key(t[i].name) == k
    ensures forall j :: 0 <= j < i ==> !(t[j].inUse && Key(t[j].name) == k)
  {
    if t == [] || (t[0].inUse && Key(t[0].name) == k) then 0 else 1 + Lookup(t[1..], k)
  }

  /** The first entry not in use, or the length of the table. */
  function FreeSlot(t: seq<DirectoryEntry>): (i: nat)
    ensures i <= |t|
    ensures i < |t| ==> !t[i].inUse
    ensures forall j :: 0 <= j < i ==> t[j].inUse
  {
    if t == [] || !t[0].inUse then 0 else 1 + FreeSlot(t[1..])
  }

  class Directory {
    const table: array<DirectoryEntry>

    constructor (size: nat)
      ensures table.Length == size && fresh(table)
      ensures forall i :: 0 <= i < size ==> !table[i].inUse
    {
      table := new DirectoryEntry[size];
      new;
      for i := 0 to size
        invariant forall j :: 0 <= j < i ==> !table[j].inUse
      {
        table[i] := table[i].(inUse := false);
      }
    }

    method FetchFrom(file: OpenFile)
      requires file.Valid() && file.hdr.numBytes == EntrySize * table.Length
      modifies table
      ensures table[..] == DecodeTable(file.Contents(), table.Length)
    {
      var bytes := new Byte[EntrySize * table.Length];
      ghost var contents := file.Contents();
      var n := file.ReadAt(bytes, 0, EntrySize * table.Length, 0);
      assert bytes[..] == contents;
      Unpack(bytes[..]);
      assert (table as object) != file.disk.sectors && (table as object) != file.hdr.dataSectors;
    }

    /** The bytes read from the file, seen as table entries. */
    method Unpack(bytes: seq<Byte>)
      requires |bytes| == EntrySize * table.Length
      modifies table
      ensures table[..] == DecodeTable(bytes, table.Length)
    {
      forall i | 0 <= i < table.Length {
        table[i] := DecodeEntry(bytes[EntrySize * i..EntrySize * i + EntrySize]);
      }
    }

    method WriteBack(file: OpenFile)
      requires file.Valid() && file.hdr.numBytes == EntrySize * table.Length
      modifies file.disk.sectors
      ensures file.Valid() && file.hdr.View() == old(file.hdr.View()) && table[..] == old(table[..])
      ensures Wrote(old(file.disk.Contents()), file.disk.Contents(), file.hdr.View(), 0, EncodeTable(table[..]))
    {
      var n := file.WriteAt(EncodeTable(table[..]), EntrySize * table.Length, 0);
    }

    method FindIndex(name: seq<Byte>) returns (i: int)
      ensures var k := Lookup(table[..], Key(name)); i == if k == table.Length then -1 else k
      ensures -1 <= i < table.Length && (i >= 0 ==> table[i].inUse && SameName(table[i].name, name))
      ensures forall k :: 0 <= k < table.Length && (i == -1 || k < i) ==> !(table[k].inUse && SameName(table[k].name, name))
    {
      for j := 0 to table.Length
        invariant forall k :: 0 <= k < j ==> !(table[k].inUse && Key(table[k].name) == Key(name))
        invariant forall k :: 0 <= k < j ==> !(table[k].inUse && SameName(table[k].name, name))
      {
        KeyEquality(table[j].name, name);
        StrncmpIsKeyEquality(table[j].name, name, FileNameMaxLen);
        if table[j].inUse && Strncmp(table[j].name, name, FileNameMaxLen) == 0 {
          return j;
        }
      }
      return -1;
    }

    method Find(name: seq<Byte>) returns (sector: int)
      ensures var k := Lookup(table[..], Key(name)); sector == if k == table.Length then -1 else table[k].sector
    {
      var i := FindIndex(name);
      if i != -1 {
        return table[i].sector;
      }
      return -1;
    }

    method Add(name: seq<Byte>, newSector: Int32) returns (ok: bool)
      modifies table
      ensures ok <==> Lookup(old(table[..]), Key(name)) == table.Length && FreeSlot(old(table[..])) < table.Length
      ensures !ok ==> table[..] == old(table[..])
      ensures ok ==> var i := FreeSlot(old(table[..]));
                     table[..] == old(table[..])[i := DirectoryEntry(true, newSector, Strncpy(old(table[i].name), name))]
    {
      var found := FindIndex(name);
      if found != -1 {
        return false;
      }
      for i := 0 to table.Length
        invariant forall j :: 0 <= j < i ==> table[j].inUse
        invariant table[..] == old(table[..])
      {
        if !table[i].inUse {
          assert FreeSlot(table[..]) == i;
          table[i] := DirectoryEntry(true, newSector, Strncpy(table[i].name, name));
          return true;
        }
      }
      return false;
    }

    method Remove(name: seq<Byte>) returns (ok: bool)
      modifies table
      ensures var k := Lookup(old(table[..]), Key(name));
              && ok == (k < table.Length)
              && table[..] == if ok then old(table[..])[k := old(table[k]).(inUse := false)] else old(table[..])
    {
      var i := FindIndex(name);
      if i == -1 {
        return false;
      }
      table[i] := table[i].(inUse := false);
      return true;
    }
  }
}
