/** Writing the header of a cell, and reading it back. */
module CellHeader {
  import opened Bytes
  import opened CellFormat

  /** The bytes before the payload: child pointer, size of the data, key or its size. */
  function HeaderOf(f: Format, left: seq<byte>, nPayload: nat, nKey: nat): seq<byte>
    requires nPayload < TWO64 && nKey < TWO64
  {
    left + (if f.HasData() then PutVarint(nPayload) else []) + PutVarint(nKey)
  }

  /** An entry the page can hold: a table leaf has an integer key and data, an index page only a key. */
  predicate GoodEntry(f: Format, left: seq<byte>, nPayload: nat, nKey: nat) {
    && f.Sane() && |left| == f.ChildPtrSize() && nPayload < 0x8000_0000
    && (if f.intKey then f.leaf && nKey < TWO64 else nKey == nPayload)
  }

  lemma WholeVarint(v: nat, rest: seq<byte>)
    requires v < TWO64
    ensures var s := PutVarint(v) + rest; Whole(s) && VarintLen(s) == |PutVarint(v)| && VarintValue(s) == v && 1 <= |PutVarint(v)| <= 9
  {
    VarintRoundTrip(v, rest);
  }

  /** The header is read back as written, whatever follows. */
  lemma HeaderReads(f: Format, left: seq<byte>, nPayload: nat, nKey: nat, rest: seq<byte>)
    requires GoodEntry(f, left, nPayload, nKey)
    ensures var h := HeaderOf(f, left, nPayload, nKey);
            var info := ParseCell(f, h + rest);
      && info.nHeader == |h| && info.nPayload == nPayload && info.nKey == nKey && info.nLocal == Local(f, nPayload)
      && info.nSize == (if nPayload > f.MaxLocal() then |h| + info.nLocal + 4 else if |h| + nPayload < 4 then 4 else |h| + nPayload)
      && info.iOverflow == (if nPayload > f.MaxLocal() then |h| + info.nLocal else 0)
      && (var s0 := Skip(h + rest, f.ChildPtrSize()); Whole(s0) && (f.HasData() ==> Whole(Skip(s0, VarintLen(s0)))))
  {
    hide PutVarint, VarintLen, VarintValue, Whole;
    var h := HeaderOf(f, left, nPayload, nKey);
    var k := PutVarint(nKey);
    if f.HasData() {
      var d := PutVarint(nPayload);
      assert Skip(h + rest, |left|) == d + (k + rest);
      WholeVarint(nPayload, k + rest);
      assert Skip(d + (k + rest), |d|) == k + rest;
    } else {
      assert Skip(h + rest, |left|) == k + rest;
      assert Skip(k + rest, 0) == k + rest;
    }
    WholeVarint(nKey, rest);
  }

  /** A cell of the right length is one cell, however its payload bytes read. */
  lemma FilledIsCell(f: Format, left: seq<byte>, nPayload: nat, nKey: nat, c: seq<byte>)
    requires GoodEntry(f, left, nPayload, nKey)
    requires var h := HeaderOf(f, left, nPayload, nKey); h <= c && |c| == ParseCell(f, h).nSize
    ensures IsCell(f, c) && ParseCell(f, c) == ParseCell(f, HeaderOf(f, left, nPayload, nKey))
  {
    hide PutVarint, VarintLen, VarintValue, Whole, HeaderOf;
    var h := HeaderOf(f, left, nPayload, nKey);
    assert c == h + c[|h|..] && h + [] == h;
    HeaderReads(f, left, nPayload, nKey, c[|h|..]);
    HeaderReads(f, left, nPayload, nKey, []);
    InfoDetermined(f, c, h);
    SizeAgrees(f, c);
  }

  /** The parsed fields follow from the key, the payload size and the header size. */
  lemma InfoDetermined(f: Format, a: seq<byte>, b: seq<byte>)
    requires f.Sane() && ParseCell(f, a).nKey == ParseCell(f, b).nKey && ParseCell(f, a).nPayload == ParseCell(f, b).nPayload
    requires ParseCell(f, a).nHeader == ParseCell(f, b).nHeader
    ensures ParseCell(f, a) == ParseCell(f, b)
  {
    hide VarintLen, VarintValue;
  }

  lemma ShortVarint(v: nat)
    requires v < 0x8000_0000
    ensures 1 <= |PutVarint(v)| <= 5
  {
    assert Pow128(4) == 0x1000_0000;
    MarkedReads(v / 128, 4);
  }
}
