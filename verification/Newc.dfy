/** The newc archive: what the writer produces and what the reader makes of it. */
module NewcArchives {
  import opened Bytes
  import opened Options

  const HEADER_SIZE: nat := 110

  const U32: nat := 0x1_0000_0000

  /** The file name that ends an archive. */
  function Trailer(): seq<byte> {
    [84, 82, 65, 73, 76, 69, 82, 33, 33, 33]
  }

  /** The magic number of a header, written and alternatively accepted. */
  function Magic(): seq<byte> {
    [48, 55, 48, 55, 48, 49]
  }

  function MagicWithSum(): seq<byte> {
    [48, 55, 48, 55, 48, 50]
  }

  // ---- hexadecimal numbers ----

  function Digit(v: nat): byte
    requires v < 16
  {
    if v < 10 then 48 + v else 97 + v - 10
  }

  /** The lowest `n` hexadecimal digits of a number. */
  function Hex(v: nat, n: nat): (r: seq<byte>)
    ensures |r| == n
  {
    if n == 0 then [] else Hex(v / 16, n - 1) + [Digit(v % 16)]
  }

  /** Digits and small letters. */
  lemma {:induction false} HexDigits(v: nat, n: nat, k: nat)
    requires k < n
    ensures 48 <= Hex(v, n)[k] <= 57 || 97 <= Hex(v, n)[k] <= 102
  {
    if k < n - 1 {
      HexDigits(v / 16, n - 1, k);
    }
  }

  function DigitValue(c: byte): Option<nat> {
    if 48 <= c <= 57 then Some(c - 48)
    else if 97 <= c <= 102 then Some(c - 97 + 10)
    else if 65 <= c <= 70 then Some(c - 65 + 10)
    else None
  }

  /** Letters may be small or capital. */
  lemma DigitExact(c: byte, v: nat)
    ensures DigitValue(c) == Some(v) <==> v < 16 && (c == Digit(v) || (v >= 10 && c == Digit(v) - 32))
  {
  }

  /** The number that hexadecimal digits stand for, modulo 2^32. */
  method ParseHex(s: seq<byte>) returns (r: Option<nat>)
    ensures r == HexValue(s)
  {
    var out := 0;
    assert s[..0] == [];
    for i := 0 to |s|
      invariant HexValue(s[..i]) == Some(out) && out < U32
    {
      assert s[..i + 1][..i] == s[..i];
      var d := DigitValue(s[i]);
      if d.None? {
        BadDigit(s, i);
        return None;
      }
      ShiftFits(out);
      out := (out * 16 % U32) + d.value;
    }
    assert s[..|s|] == s;
    return Some(out);
  }

  function HexValue(s: seq<byte>): (r: Option<nat>)
    ensures r.Some? ==> r.value < U32
  {
    if s == [] then Some(0) else
    var front, d := HexValue(s[..|s| - 1]), DigitValue(s[|s| - 1]);
    if front.None? || d.None? then None else
    ShiftFits(front.value);
    Some(front.value * 16 % U32 + d.value)
  }

  lemma ShiftFits(v: nat)
    ensures v * 16 % U32 <= U32 - 16
  {
    assert v * 16 % U32 == v % 0x1000_0000 * 16 by {
      assert v * 16 == v / 0x1000_0000 * U32 + v % 0x1000_0000 * 16;
    }
  }

  lemma {:induction false} BadDigit(s: seq<byte>, i: nat)
    requires i < |s| && DigitValue(s[i]) == None
    ensures HexValue(s) == None
  {
    if i < |s| - 1 {
      BadDigit(s[..|s| - 1], i);
    }
  }

  function Pow16(n: nat): (r: nat)
    ensures r > 0
  {
    if n == 0 then 1 else 16 * Pow16(n - 1)
  }

  /** Digits that suffice for a number give the number back. */
  lemma {:induction false} HexRoundTrip(v: nat, n: nat)
    requires v < Pow16(n) && n <= 8
    ensures HexValue(Hex(v, n)) == Some(v)
  {
    if n > 0 {
      HexRoundTrip(v / 16, n - 1);
      PowFits(n);
      assert Hex(v, n)[..n - 1] == Hex(v / 16, n - 1);
    }
  }

  lemma {:induction false} PowFits(n: nat)
    requires n <= 8
    ensures Pow16(n) <= U32
    ensures n == 8 ==> Pow16(n) == U32
  {
    assert Pow16(2) == 256 && Pow16(4) == 65536;
    assert Pow16(6) == 16777216 && Pow16(8) == U32;
  }

  // ---- writing ----

  datatype Entry = Entry(name: seq<byte>, mode: nat, data: seq<byte>)

  function Align4(n: nat): (r: nat)
    ensures n <= r < n + 4 && r % 4 == 0
  {
    (n + 3) / 4 * 4
  }

  /** Filled up with zeros. */
  function Padded(b: seq<byte>, length: nat): (r: seq<byte>)
    requires |b| <= length
    ensures |r| == length && r[..|b|] == b
  {
    b + seq<byte>(length - |b|, _ => 0)
  }

  lemma PaddedWithZeros(b: seq<byte>, length: nat, k: nat)
    requires |b| <= k < length
    ensures Padded(b, length)[k] == 0
  {
  }

  function Padded4(b: seq<byte>): (r: seq<byte>)
    ensures |r| == Align4(|b|) && r[..|b|] == b
  {
    Padded(b, Align4(|b|))
  }

  /** The fields of a header behind the magic number. */
  function Fields(inode: nat, mode: nat, size: nat, nameSize: nat): (r: seq<nat>)
    ensures |r| == 13
  {
    [inode, mode, 0, 0, 1, 0, size, 0, 0, 0, 0, nameSize, 0]
  }

  function HexFields(values: seq<nat>): (r: seq<byte>)
    ensures |r| == 8 * |values|
  {
    if values == [] then [] else HexFields(values[..|values| - 1]) + Hex(values[|values| - 1], 8)
  }

  lemma {:induction false} FieldAt(values: seq<nat>, k: nat)
    requires k < |values|
    ensures HexFields(values)[8 * k..8 * k + 8] == Hex(values[k], 8)
  {
    hide Hex;
    var n := |values| - 1;
    var front, last := HexFields(values[..n]), Hex(values[n], 8);
    assert HexFields(values) == front + last && |front| == 8 * n;
    if k < n {
      FieldAt(values[..n], k);
      assert (front + last)[8 * k..8 * k + 8] == front[8 * k..8 * k + 8];
    } else {
      assert (front + last)[8 * k..8 * k + 8] == last;
    }
  }

  function Header(inode: nat, mode: nat, size: nat, nameSize: nat): (r: seq<byte>)
    ensures |r| == HEADER_SIZE
  {
    Magic() + HexFields(Fields(inode, mode, size, nameSize))
  }

  /** Sizes must fit into 32 bits and names must not contain a zero. */
  predicate Writable(e: Entry) {
    0 !in e.name && |e.data| < U32 && |e.name| < U32 - 1
  }

  /** The archive so far, with one more entry. */
  function Append(out: seq<byte>, inode: nat, e: Entry): (r: seq<byte>)
  {
    Padded4(Padded4(out + Header(inode, e.mode, |e.data|, |e.name| + 1) + e.name + [0]) + e.data)
  }

  /** The archive after the first `n` entries. */
  function Written(entries: seq<Entry>, n: nat): seq<byte>
    requires n <= |entries|
  {
    if n == 0 then [] else Append(Written(entries, n - 1), n % U32, entries[n - 1])
  }

  function Ending(): Entry {
    Entry(Trailer(), 0, [])
  }

  function Finished(entries: seq<Entry>): seq<byte> {
    var bytes := Append(Written(entries, |entries|), 0, Ending());
    Padded(bytes, (|bytes| + 511) / 512 * 512)
  }

  /** Writes the entries and the trailer; fails exactly when an entry cannot be written. */
  method Archive(entries: seq<Entry>) returns (r: Option<seq<byte>>)
    ensures r.Some? <==>
              forall e :: e in entries ==> 0 !in e.name && |e.data| <= 0xffff_ffff && |e.name| < 0xffff_ffff
    ensures r.Some? ==> r.value == Finished(entries) && |r.value| % 512 == 0
  {
    hide Append;
    var bytes := [];
    for i := 0 to |entries|
      invariant bytes == Written(entries, i) && forall k :: 0 <= k < i ==> Writable(entries[k])
    {
      if !Writable(entries[i]) {
        assert entries[i] in entries;
        return None;
      }
      bytes := Append(bytes, (i + 1) % U32, entries[i]);
    }
    bytes := Append(bytes, 0, Ending());
    return Some(Padded(bytes, (|bytes| + 511) / 512 * 512));
  }

  // ---- reading ----

  datatype Record = Record(name: seq<byte>, data: seq<byte>)

  /** What is at an offset: nothing readable, the trailer, or a record and the offset behind it. */
  datatype Found = Malformed | Last | Item(record: Record, next: nat)

  function HeaderAt(archive: seq<byte>, offset: nat): Option<(nat, nat)>
    requires offset + HEADER_SIZE <= |archive|
  {
    var header := archive[offset..offset + HEADER_SIZE];
    if header[..6] != Magic() && header[..6] != MagicWithSum() then None else
    var size, nameSize := HexValue(header[54..62]), HexValue(header[94..102]);
    if size.None? || nameSize.None? || nameSize.value == 0 then None else Some((size.value, nameSize.value))
  }

  function ReadAt(archive: seq<byte>, offset: nat, utf8: seq<byte> -> bool): Found
    requires offset + HEADER_SIZE <= |archive|
  {
    var h := HeaderAt(archive, offset);
    if h.None? then Malformed else
    var nameEnd := offset + HEADER_SIZE + h.value.1;
    if nameEnd > |archive| || !utf8(archive[offset + HEADER_SIZE..nameEnd - 1]) then Malformed else
    var name, start := archive[offset + HEADER_SIZE..nameEnd - 1], Align4(nameEnd);
    if start + h.value.0 > |archive| then Malformed
    else if name == Trailer() then Last
    else Item(Record(name, archive[start..start + h.value.0]), Align4(start + h.value.0))
  }

  /** The records from an offset on, if the archive is well-formed up to its trailer. */
  function Records(archive: seq<byte>, offset: nat, utf8: seq<byte> -> bool): Option<seq<Record>>
    decreases |archive| - offset
  {
    if offset + HEADER_SIZE > |archive| then None else
    match ReadAt(archive, offset, utf8)
    case Malformed => None
    case Last => Some([])
    case Item(record, next) =>
      var rest := Records(archive, next, utf8);
      if rest.None? then None else Some([record] + rest.value)
  }

  /** At the offset there are a header with either magic number and the sizes of name and data, the name and
      a byte behind it, and from the next multiple of four on the data. */
  ghost predicate Shows(archive: seq<byte>, offset: nat, name: seq<byte>, data: seq<byte>) {
    var at := offset + 110;
    var start := Align4(at + |name| + 1);
    && at + |name| + 1 <= |archive| && start + |data| <= |archive|
    && archive[offset..offset + 5] == [48, 55, 48, 55, 48] && 49 <= archive[offset + 5] <= 50
    && HexValue(archive[offset + 54..offset + 62]) == Some(|data|)
    && HexValue(archive[offset + 94..offset + 102]) == Some(|name| + 1)
    && archive[at..at + |name|] == name && archive[start..start + |data|] == data
  }

  lemma SliceOfSlice(b: seq<byte>, at: nat, n: nat, lo: nat, hi: nat)
    requires at + n <= |b| && lo <= hi <= n
    ensures b[at..at + n][lo..hi] == b[at + lo..at + hi]
  {
    var part := b[at..at + n];
    assert forall k :: 0 <= k < n ==> part[k] == b[at + k];
    assert part[lo..hi] == b[at + lo..at + hi];
  }

  lemma HeaderIs(archive: seq<byte>, offset: nat, size: nat, nameSize: nat)
    requires offset + HEADER_SIZE <= |archive|
    ensures HeaderAt(archive, offset) == Some((size, nameSize)) <==>
              && archive[offset..offset + 5] == [48, 55, 48, 55, 48] && 49 <= archive[offset + 5] <= 50
              && HexValue(archive[offset + 54..offset + 62]) == Some(size)
              && HexValue(archive[offset + 94..offset + 102]) == Some(nameSize) && nameSize > 0
  {
    hide HexValue;
    SliceOfSlice(archive, offset, HEADER_SIZE, 0, 6);
    SliceOfSlice(archive, offset, HEADER_SIZE, 54, 62);
    SliceOfSlice(archive, offset, HEADER_SIZE, 94, 102);
    var magic := archive[offset..offset + 6];
    assert magic == archive[offset..offset + 5] + [archive[offset + 5]];
    assert magic[..5] == archive[offset..offset + 5];
  }

  /** What comes behind an entry is at the next multiple of four. */
  function After(offset: nat, record: Record): nat {
    Align4(Align4(offset + 110 + |record.name| + 1) + |record.data|)
  }

  /** The name TRAILER!!! */
  ghost predicate EndsArchive(name: seq<byte>) {
    name == [84, 82, 65, 73, 76, 69, 82, 33, 33, 33]
  }

  ghost predicate ShowsItem(archive: seq<byte>, offset: nat, record: Record, utf8: seq<byte> -> bool) {
    Shows(archive, offset, record.name, record.data) && utf8(record.name) && !EndsArchive(record.name)
  }

  ghost predicate ShowsEnd(archive: seq<byte>, offset: nat, utf8: seq<byte> -> bool) {
    exists name, data :: Shows(archive, offset, name, data) && utf8(name) && EndsArchive(name)
  }

  /** The reader accepts exactly what is laid out so. */
  lemma ReadAtExact(archive: seq<byte>, offset: nat, utf8: seq<byte> -> bool, record: Record, next: nat)
    requires offset + HEADER_SIZE <= |archive|
    ensures ReadAt(archive, offset, utf8) == Item(record, next) <==>
              ShowsItem(archive, offset, record, utf8) && next == After(offset, record)
  {
    hide HexValue, HeaderAt;
    HeaderIs(archive, offset, |record.data|, |record.name| + 1);
    var h := HeaderAt(archive, offset);
    if h.Some? {
      HeaderIs(archive, offset, h.value.0, h.value.1);
    }
  }

  lemma LastExact(archive: seq<byte>, offset: nat, utf8: seq<byte> -> bool)
    requires offset + HEADER_SIZE <= |archive|
    ensures ReadAt(archive, offset, utf8) == Last <==> ShowsEnd(archive, offset, utf8)
  {
    hide ReadAt, Shows;
    if ReadAt(archive, offset, utf8).Last? {
      LastShows(archive, offset, utf8);
    } else if ShowsEnd(archive, offset, utf8) {
      var name, data :| Shows(archive, offset, name, data) && utf8(name) && EndsArchive(name);
      ShowsLast(archive, offset, utf8, name, data);
    }
  }

  lemma LastShows(archive: seq<byte>, offset: nat, utf8: seq<byte> -> bool)
    requires offset + HEADER_SIZE <= |archive| && ReadAt(archive, offset, utf8).Last?
    ensures ShowsEnd(archive, offset, utf8)
  {
    hide HexValue, HeaderAt;
    var h := HeaderAt(archive, offset).value;
    HeaderIs(archive, offset, h.0, h.1);
    var at, start := offset + HEADER_SIZE, Align4(offset + HEADER_SIZE + h.1);
    assert Shows(archive, offset, archive[at..at + h.1 - 1], archive[start..start + h.0]);
  }

  lemma ShowsLast(archive: seq<byte>, offset: nat, utf8: seq<byte> -> bool, name: seq<byte>, data: seq<byte>)
    requires Shows(archive, offset, name, data) && utf8(name) && EndsArchive(name)
    ensures offset + HEADER_SIZE <= |archive| && ReadAt(archive, offset, utf8).Last?
  {
    hide HexValue, HeaderAt;
    HeaderIs(archive, offset, |data|, |name| + 1);
  }

  /** Entry behind entry from the offset on, and then the trailer. */
  ghost predicate Chained(archive: seq<byte>, offset: nat, records: seq<Record>, utf8: seq<byte> -> bool)
    decreases |records|
  {
    if records == [] then ShowsEnd(archive, offset, utf8)
    else ShowsItem(archive, offset, records[0], utf8)
         && Chained(archive, After(offset, records[0]), records[1..], utf8)
  }

  /** The records of an archive are those on the chain of entries from its start to a trailer, and there are
      records only if there is such a chain. */
  lemma {:induction false} RecordsExact(archive: seq<byte>, offset: nat, utf8: seq<byte> -> bool, records: seq<Record>)
    ensures Records(archive, offset, utf8) == Some(records) <==> Chained(archive, offset, records, utf8)
    decreases |records|
  {
    hide ReadAt, Shows, After;
    if offset + HEADER_SIZE <= |archive| {
      LastExact(archive, offset, utf8);
      var found := ReadAt(archive, offset, utf8);
      if found.Item? {
        ReadAtExact(archive, offset, utf8, found.record, found.next);
      }
      if records != [] {
        var next := After(offset, records[0]);
        ReadAtExact(archive, offset, utf8, records[0], next);
        RecordsExact(archive, next, utf8, records[1..]);
        assert records == [records[0]] + records[1..];
      }
    } else {
      NoRoom(archive, offset);
    }
  }

  lemma NoRoom(archive: seq<byte>, offset: nat)
    requires offset + HEADER_SIZE > |archive|
    ensures forall name, data :: !Shows(archive, offset, name, data)
  {
  }

  /** The visitor's loop. */
  method ForEachEntry(archive: seq<byte>, utf8: seq<byte> -> bool) returns (r: Option<seq<Record>>)
    ensures r == Records(archive, 0, utf8)
  {
    hide ReadAt;
    var offset, visited := 0, [];
    NoneVisited(Records(archive, 0, utf8));
    while offset + HEADER_SIZE <= |archive|
      invariant Records(archive, 0, utf8) == Behind(visited, Records(archive, offset, utf8))
      decreases |archive| - offset
    {
      var found := ReadAt(archive, offset, utf8);
      match found {
        case Malformed => return None;
        case Last =>
          assert visited + [] == visited;
          return Some(visited);
        case Item(record, next) =>
          NextIsFurther(archive, offset, utf8);
          MoreVisited(visited, record, Records(archive, next, utf8));
          visited, offset := visited + [record], next;
      }
    }
    return None;
  }

  function Behind(visited: seq<Record>, rest: Option<seq<Record>>): Option<seq<Record>> {
    if rest.None? then None else Some(visited + rest.value)
  }

  lemma MoreVisited(visited: seq<Record>, record: Record, rest: Option<seq<Record>>)
    ensures Behind(visited + [record], rest)
            == Behind(visited, if rest.None? then None else Some([record] + rest.value))
  {
    if rest.Some? {
      assert visited + [record] + rest.value == visited + ([record] + rest.value);
    }
  }

  lemma NoneVisited(rest: Option<seq<Record>>)
    ensures Behind([], rest) == rest
  {
    if rest.Some? {
      assert [] + rest.value == rest.value;
    }
  }

  lemma NextIsFurther(archive: seq<byte>, offset: nat, utf8: seq<byte> -> bool)
    requires offset + HEADER_SIZE <= |archive|
    ensures var found := ReadAt(archive, offset, utf8); found.Item? ==> found.next >= offset + HEADER_SIZE
  {
  }

  // ---- reading what was written ----

  lemma HeaderReads(archive: seq<byte>, offset: nat, inode: nat, mode: nat, size: nat, nameSize: nat)
    requires offset + HEADER_SIZE <= |archive|
    requires archive[offset..offset + HEADER_SIZE] == Header(inode, mode, size, nameSize)
    requires size < U32 && 0 < nameSize < U32
    ensures HeaderAt(archive, offset) == Some((size, nameSize))
  {
    hide HexFields, Hex, HexValue;
    var values := Fields(inode, mode, size, nameSize);
    var header := archive[offset..offset + HEADER_SIZE];
    FieldAt(values, 6);
    FieldAt(values, 11);
    assert header[..6] == Magic();
    assert header[54..62] == HexFields(values)[48..56] && header[94..102] == HexFields(values)[88..96];
    PowFits(8);
    HexRoundTrip(size, 8);
    HexRoundTrip(nameSize, 8);
  }

  /** Where the parts of an appended entry are. */
  lemma AppendedParts(out: seq<byte>, inode: nat, e: Entry)
    ensures var a, at := Append(out, inode, e), |out| + HEADER_SIZE;
            var start := Align4(at + |e.name| + 1);
            && |a| == Align4(start + |e.data|) && out <= a
            && a[|out|..at] == Header(inode, e.mode, |e.data|, |e.name| + 1)
            && a[at..at + |e.name|] == e.name && a[at + |e.name|] == 0 && a[start..start + |e.data|] == e.data
  {
    hide Header, Padded;
    var h := Header(inode, e.mode, |e.data|, |e.name| + 1);
    var at := |out| + HEADER_SIZE;
    var b := out + h + e.name + [0];
    var p := Padded4(b);
    var a := Append(out, inode, e);
    assert a[..|p + e.data|] == p + e.data;
    assert b[..|out|] == out && b[|out|..at] == h && b[at..at + |e.name|] == e.name;
    assert p[..|b|] == b && p[at + |e.name|] == b[at + |e.name|] == 0;
    Inside(a, p + e.data, |p|, |p| + |e.data|);
    Inside(a, p + e.data, 0, |p|);
    Inside(p, b, 0, |out|);
    Inside(p, b, |out|, at);
    Inside(p, b, at, at + |e.name|);
    assert (p + e.data)[0..|p|] == p && (p + e.data)[|p|..|p| + |e.data|] == e.data;
    Inside(a, p, 0, |out|);
    Inside(a, p, |out|, at);
    Inside(a, p, at, at + |e.name|);
  }

  lemma Inside(a: seq<byte>, b: seq<byte>, lo: nat, hi: nat)
    requires lo <= hi <= |b| <= |a| && a[..|b|] == b
    ensures a[lo..hi] == b[lo..hi]
  {
    assert forall k :: 0 <= k < |b| ==> a[..|b|][k] == a[k];
  }

  /** What the fields of the header of entry `k` say: its number, its mode, one link, the sizes of its data
      and of its name with the zero behind it, and nothing else; the trailer is number 0, of mode 0, without
      data. */
  lemma HeaderWritten(entries: seq<Entry>, k: nat, i: nat)
    requires k <= |entries| && i < 13
    requires k < |entries| ==> Writable(entries[k]) && entries[k].mode < U32
    ensures var at := |Written(entries, k)|;
            && at + HEADER_SIZE <= |Finished(entries)|
            && Finished(entries)[at..at + 6] == [48, 55, 48, 55, 48, 49]
            && HexValue(Finished(entries)[at + 6 + 8 * i..at + 14 + 8 * i]) == Some(FieldOf(entries, k, i))
  {
    hide Append, Written, Finished, Header, HexValue, FieldOf, Fields, Writable;
    InArchive(entries, k);
    if k < |entries| {
      InArchive(entries, k + 1);
      WrittenStep(entries, k);
      HeaderIn(Finished(entries), Written(entries, k), (k + 1) % U32, entries[k], i);
    } else {
      EndingIsWritable();
      HeaderIn(Finished(entries), Written(entries, k), 0, Ending(), i);
    }
    FieldsAgree(entries, k, i);
  }

  lemma FieldsAgree(entries: seq<Entry>, k: nat, i: nat)
    requires k <= |entries| && i < 13
    ensures FieldOf(entries, k, i) == if k < |entries|
                                      then Fields((k + 1) % U32, entries[k].mode, |entries[k].data|,
                                                  |entries[k].name| + 1)[i]
                                      else Fields(0, Ending().mode, |Ending().data|, |Ending().name| + 1)[i]
  {
  }

  ghost function FieldOf(entries: seq<Entry>, k: nat, i: nat): nat
    requires k <= |entries|
  {
    if i == 4 then 1
    else if k == |entries| then (if i == 11 then 11 else 0)
    else if i == 0 then (k + 1) % U32
    else if i == 1 then entries[k].mode
    else if i == 6 then |entries[k].data|
    else if i == 11 then |entries[k].name| + 1
    else 0
  }

  lemma HeaderIn(a: seq<byte>, out: seq<byte>, inode: nat, e: Entry, i: nat)
    requires i < 13 && Writable(e) && e.mode < U32 && inode < U32 && Append(out, inode, e) <= a
    ensures |out| + HEADER_SIZE <= |a| && a[|out|..|out| + 6] == [48, 55, 48, 55, 48, 49]
    ensures HexValue(a[|out| + 6 + 8 * i..|out| + 14 + 8 * i])
            == Some(Fields(inode, e.mode, |e.data|, |e.name| + 1)[i])
  {
    hide Append, HexFields, Hex, HexValue;
    var at := |out|;
    AppendedParts(out, inode, e);
    Inside(a, Append(out, inode, e), at, at + HEADER_SIZE);
    var values := Fields(inode, e.mode, |e.data|, |e.name| + 1);
    var h := Magic() + HexFields(values);
    assert a[at..at + HEADER_SIZE] == h;
    SliceOfSlice(a, at, HEADER_SIZE, 0, 6);
    FieldAt(values, i);
    SliceOfSlice(a, at, HEADER_SIZE, 6 + 8 * i, 14 + 8 * i);
    assert h[6 + 8 * i..14 + 8 * i] == HexFields(values)[8 * i..8 * i + 8];
    PowFits(8);
    HexRoundTrip(values[i], 8);
  }

  lemma WrittenStep(entries: seq<Entry>, k: nat)
    requires k < |entries|
    ensures Written(entries, k + 1) == Append(Written(entries, k), (k + 1) % U32, entries[k])
  {
  }

  /** An entry is read as it was appended, wherever it is in the archive. */
  lemma ReadsBack(archive: seq<byte>, out: seq<byte>, inode: nat, e: Entry, utf8: seq<byte> -> bool)
    requires Writable(e) && utf8(e.name) && Append(out, inode, e) <= archive
    ensures |out| + HEADER_SIZE <= |archive|
    ensures ReadAt(archive, |out|, utf8) ==
              if e.name == Trailer() then Last else Item(Record(e.name, e.data), |Append(out, inode, e)|)
  {
    hide Append, Header, HeaderAt;
    AppendedParts(out, inode, e);
    var a, at := Append(out, inode, e), |out| + HEADER_SIZE;
    var start := Align4(at + |e.name| + 1);
    Inside(archive, a, |out|, at);
    Inside(archive, a, at, at + |e.name|);
    Inside(archive, a, start, start + |e.data|);
    HeaderReads(archive, |out|, inode, e.mode, |e.data|, |e.name| + 1);
  }

  lemma {:induction false} WrittenBefore(entries: seq<Entry>, k: nat, n: nat)
    requires k <= n <= |entries|
    ensures Written(entries, k) <= Written(entries, n)
  {
    hide Append;
    if k < n {
      WrittenBefore(entries, k, n - 1);
      AppendedParts(Written(entries, n - 1), n % U32, entries[n - 1]);
      Transitive(Written(entries, k), Written(entries, n - 1), Written(entries, n));
    }
  }

  lemma Transitive(a: seq<byte>, b: seq<byte>, c: seq<byte>)
    requires a <= b <= c
    ensures a <= c
  {
  }

  /** The entries in front of the first that is named like the trailer. */
  function Visible(entries: seq<Entry>): seq<Record> {
    if entries == [] || entries[0].name == Trailer() then []
    else [Record(entries[0].name, entries[0].data)] + Visible(entries[1..])
  }

  /** All of them, if no entry has that name. */
  lemma {:induction false} AllVisible(entries: seq<Entry>)
    ensures |Visible(entries)| == |entries| <==> forall e :: e in entries ==> e.name != Trailer()
    ensures |Visible(entries)| <= |entries|
    ensures forall k :: 0 <= k < |Visible(entries)| ==> Visible(entries)[k] == Record(entries[k].name, entries[k].data)
  {
    if entries != [] && entries[0].name != Trailer() {
      AllVisible(entries[1..]);
      assert forall e :: e in entries <==> e == entries[0] || e in entries[1..];
    } else if entries != [] {
      assert entries[0] in entries;
    }
  }

  ghost predicate Readable(entries: seq<Entry>, utf8: seq<byte> -> bool) {
    utf8(Trailer()) && forall e :: e in entries ==> Writable(e) && utf8(e.name)
  }

  /** Everything that was written is at the front of the archive. */
  lemma InArchive(entries: seq<Entry>, k: nat)
    requires k <= |entries|
    ensures Written(entries, k) <= Finished(entries)
    ensures Append(Written(entries, |entries|), 0, Ending()) <= Finished(entries)
  {
    hide Append, Written;
    var n := |entries|;
    WrittenBefore(entries, k, n);
    AppendedParts(Written(entries, n), 0, Ending());
    Transitive(Written(entries, k), Written(entries, n), Append(Written(entries, n), 0, Ending()));
    Transitive(Written(entries, k), Append(Written(entries, n), 0, Ending()), Finished(entries));
  }

  /** What the reader finds where entry `k` was written, and behind the last one. */
  lemma FoundAt(entries: seq<Entry>, k: nat, utf8: seq<byte> -> bool)
    requires k <= |entries| && Readable(entries, utf8)
    ensures |Written(entries, k)| + HEADER_SIZE <= |Finished(entries)|
    ensures ReadAt(Finished(entries), |Written(entries, k)|, utf8) ==
              if k == |entries| || entries[k].name == Trailer() then Last
              else Item(Record(entries[k].name, entries[k].data), |Written(entries, k + 1)|)
  {
    hide Append, Finished, ReadAt;
    if k == |entries| {
      InArchive(entries, k);
      EndingIsWritable();
      ReadsBack(Finished(entries), Written(entries, k), 0, Ending(), utf8);
    } else {
      InArchive(entries, k + 1);
      assert entries[k] in entries;
      ReadsBack(Finished(entries), Written(entries, k), (k + 1) % U32, entries[k], utf8);
    }
  }

  lemma EndingIsWritable()
    ensures Writable(Ending())
  {
  }

  lemma {:induction false} RecordsFrom(entries: seq<Entry>, k: nat, utf8: seq<byte> -> bool)
    requires k <= |entries| && Readable(entries, utf8)
    ensures Records(Finished(entries), |Written(entries, k)|, utf8) == Some(Visible(entries[k..]))
    decreases |entries| - k
  {
    hide Written, Finished, ReadAt, Trailer;
    FoundAt(entries, k, utf8);
    if k < |entries| {
      RecordsFrom(entries, k + 1, utf8);
      assert entries[k..][1..] == entries[k + 1..];
    }
  }

  /** Reading a written archive gives the names and data of its entries, in order, up to the first entry
      that is named like the trailer. */
  lemma ArchiveReadsBack(entries: seq<Entry>, utf8: seq<byte> -> bool)
    requires Readable(entries, utf8)
    ensures Records(Finished(entries), 0, utf8) == Some(Visible(entries))
  {
    RecordsFrom(entries, 0, utf8);
    assert entries[0..] == entries && Written(entries, 0) == [];
  }

  // ---- finding an image ----

  const SLASH: byte := 47

  /** Without a leading `./` or `/`. */
  function Normalized(name: seq<byte>): seq<byte> {
    if [46, SLASH] <= name then name[2..] else if [SLASH] <= name then name[1..] else name
  }

  /** Without a trailing `.elf`. */
  function Stem(name: seq<byte>): seq<byte> {
    if |name| >= 4 && name[|name| - 4..] == [46, 101, 108, 102] then name[..|name| - 4] else name
  }

  /** What is behind the last slash. */
  function BaseName(name: seq<byte>): seq<byte> {
    if name == [] || name[|name| - 1] == SLASH then [] else BaseName(name[..|name| - 1]) + [name[|name| - 1]]
  }

  /** A request with a slash names a path, one without names a file in any directory. */
  predicate Matches(name: seq<byte>, requested: seq<byte>) {
    if SLASH in Normalized(requested) then Stem(Normalized(name)) == Stem(Normalized(requested))
    else Stem(BaseName(Normalized(name))) == Stem(Normalized(requested))
  }

  /** The name is the path, possibly with `./` or `/` in front; a path with one of them in front always has
      another. */
  ghost predicate Leads(name: seq<byte>, path: seq<byte>) {
    || name == [46, 47] + path || name == [47] + path
    || (name == path && !([46, 47] <= path) && !([47] <= path))
  }

  ghost predicate EndsInElf(file: seq<byte>) {
    exists front: seq<byte> :: file == front + [46, 101, 108, 102]
  }

  /** The file is the stem, possibly with `.elf` behind it; a stem that ends so always has another. */
  ghost predicate Extends(file: seq<byte>, stem: seq<byte>) {
    file == stem + [46, 101, 108, 102] || (file == stem && !EndsInElf(stem))
  }

  /** The path leads to the file, in some directory or in none. */
  ghost predicate InDirectory(path: seq<byte>, file: seq<byte>) {
    47 !in file && (path == file || exists directory: seq<byte> :: path == directory + [47] + file)
  }

  /** What a record must be called to be meant by a request: a path with a slash means that path, any other
      a file in whatever directory; neither `./`, `/` nor `.elf` makes a difference. */
  ghost predicate Means(requested: seq<byte>, name: seq<byte>) {
    exists path, want, stem {:trigger Leads(name, path), Leads(requested, want), Extends(want, stem)} ::
      && Leads(name, path) && Leads(requested, want) && Extends(want, stem)
      && if 47 in want then Extends(path, stem)
         else exists file :: InDirectory(path, file) && Extends(file, stem)
  }

  lemma NormalizedIs(name: seq<byte>, path: seq<byte>)
    ensures Normalized(name) == path <==> Leads(name, path)
  {
    var dot: seq<byte>, root: seq<byte> := [46, 47], [47];
    if Leads(name, path) {
      assert name == dot + path ==> dot <= name && name[2..] == path;
      assert name == root + path ==> root <= name && name[0] == 47 && name[1..] == path;
    } else if dot <= name {
      assert name == dot + name[2..];
    } else if root <= name {
      assert name == root + name[1..];
    }
  }

  lemma StemIs(file: seq<byte>, stem: seq<byte>)
    ensures Stem(file) == stem <==> Extends(file, stem)
  {
    var elf: seq<byte> := [46, 101, 108, 102];
    if |file| >= 4 && file[|file| - 4..] == elf {
      assert file == file[..|file| - 4] + elf;
    }
    assert (stem + elf)[..|stem|] == stem && (stem + elf)[|stem|..] == elf;
    if EndsInElf(stem) {
      var front: seq<byte> :| stem == front + elf;
      assert stem[|stem| - 4..] == elf;
    }
  }

  lemma {:induction false} BaseNameIs(path: seq<byte>, file: seq<byte>)
    ensures BaseName(path) == file <==> InDirectory(path, file)
  {
    if path == [] {
      assert forall directory: seq<byte> :: |directory + [47] + file| > 0;
    } else {
      var n := |path| - 1;
      assert path == path[..n] + [path[n]];
      if path[n] == SLASH {
        assert path == path[..n] + [47] + [];
        if InDirectory(path, file) {
          LastByte(path, file);
        }
      } else if file != [] && file[|file| - 1] == path[n] {
        Shorter(path, file);
        BaseNameIs(path[..n], file[..|file| - 1]);
        assert file == file[..|file| - 1] + [path[n]];
      } else {
        assert BaseName(path)[|BaseName(path)| - 1] == path[n];
        if InDirectory(path, file) {
          LastByte(path, file);
        }
      }
    }
  }

  /** The last byte of a path is that of the file it leads to, or the slash in front of an empty one. */
  lemma LastByte(path: seq<byte>, file: seq<byte>)
    requires path != [] && InDirectory(path, file)
    ensures path[|path| - 1] == if file == [] then SLASH else file[|file| - 1]
  {
  }

  lemma Shorter(path: seq<byte>, file: seq<byte>)
    requires path != [] && file != [] && path[|path| - 1] == file[|file| - 1] != SLASH
    ensures InDirectory(path, file) <==> InDirectory(path[..|path| - 1], file[..|file| - 1])
  {
    var p, f := path[..|path| - 1], file[..|file| - 1];
    var c := path[|path| - 1];
    assert path == p + [c] && file == f + [c];
    if InDirectory(path, file) && path != file {
      var directory: seq<byte> :| path == directory + [47] + file;
      assert p == directory + [47] + f;
    }
    if InDirectory(p, f) && p != f {
      var directory: seq<byte> :| p == directory + [47] + f;
      assert path == directory + [47] + file;
    }
  }

  /** The comparison that the reader makes is what a request means. */
  lemma MatchesExactly(name: seq<byte>, requested: seq<byte>)
    ensures Matches(name, requested) <==> Means(requested, name)
  {
    hide Leads, Extends, InDirectory, Normalized, Stem, BaseName;
    var path, want := Normalized(name), Normalized(requested);
    var stem, file := Stem(want), BaseName(path);
    NormalizedIs(name, path);
    NormalizedIs(requested, want);
    StemIs(want, stem);
    StemIs(path, stem);
    BaseNameIs(path, file);
    StemIs(file, stem);
    forall p, w, t, f | Leads(name, p) && Leads(requested, w) && Extends(w, t)
      ensures p == path && w == want && t == stem
      ensures Extends(p, t) ==> Stem(p) == t
      ensures InDirectory(p, f) && Extends(f, t) ==> f == file && Stem(f) == t
    {
      NormalizedIs(name, p);
      NormalizedIs(requested, w);
      StemIs(w, t);
      StemIs(p, t);
      BaseNameIs(p, f);
      StemIs(f, t);
    }
  }

  /** Record `k` is the only one that is meant. */
  ghost predicate OnlyMatch(records: seq<Record>, requested: seq<byte>, k: nat) {
    && k < |records| && Means(requested, records[k].name)
    && forall j :: 0 <= j < |records| && j != k ==> !Means(requested, records[j].name)
  }

  /** The archive is well-formed and the record is the only one that is meant. */
  ghost predicate Sole(all: Option<seq<Record>>, requested: seq<byte>, record: Record) {
    all.Some? && exists k: nat {:trigger OnlyMatch(all.value, requested, k)} ::
      OnlyMatch(all.value, requested, k) && all.value[k] == record
  }

  /** Finds the image with a name, provided the archive is well-formed and the name is unambiguous. */
  method FindImage(archive: seq<byte>, requested: seq<byte>, utf8: seq<byte> -> bool) returns (r: Option<Record>)
    ensures r.Some? ==> Sole(Records(archive, 0, utf8), requested, r.value)
    ensures r.None? ==>
              forall record {:trigger Sole(Records(archive, 0, utf8), requested, record)} ::
                !Sole(Records(archive, 0, utf8), requested, record)
  {
    hide ReadAt, Matches, Means;
    var offset: nat := 0;
    ghost var visited: seq<Record>, at: nat := [], 0;
    r := None;
    NoneVisited(Records(archive, 0, utf8));
    while offset + HEADER_SIZE <= |archive|
      invariant Records(archive, 0, utf8) == Behind(visited, Records(archive, offset, utf8))
      invariant r.Some? ==> OnlyMatch(visited, requested, at) && visited[at] == r.value
      invariant r.None? ==> forall j :: 0 <= j < |visited| ==> !Means(requested, visited[j].name)
      decreases |archive| - offset
    {
      var found := ReadAt(archive, offset, utf8);
      match found {
        case Malformed => return None;
        case Last =>
          assert visited + [] == visited;
          return;
        case Item(record, next) =>
          NextIsFurther(archive, offset, utf8);
          MoreVisited(visited, record, Records(archive, next, utf8));
          MatchesExactly(record.name, requested);
          if Matches(record.name, requested) {
            if r.Some? {
              TwoMatches(visited, record, Records(archive, next, utf8), requested, at);
              return None;
            }
            r, at := Some(record), |visited|;
          }
          visited, offset := visited + [record], next;
      }
    }
    return None;
  }

  lemma TwoMatches(visited: seq<Record>, record: Record, rest: Option<seq<Record>>, requested: seq<byte>, at: nat)
    requires at < |visited| && Means(requested, visited[at].name) && Means(requested, record.name)
    ensures forall other {:trigger Sole(Behind(visited + [record], rest), requested, other)} ::
              !Sole(Behind(visited + [record], rest), requested, other)
  {
    if rest.Some? {
      var all := visited + [record] + rest.value;
      assert all[at] == visited[at] && all[|visited|] == record;
    }
  }
}
