/** The bulk macros themselves: a DBT whose buffer is changed word by word and byte by byte, in place. */
module BulkBuffer {
  import opened Bytes
  import opened BulkLayout
  import opened BulkWriter
  import opened BulkReader

  const DB_DBT_BULK: bv32 := 0x002

  /** The caller's cursor variable. */
  datatype Pointer = Null | At(p: int)

  lemma TwoStores(s: seq<byte>, p: nat, v: u32, w: u32)
    requires 4 <= p && p + 4 <= |s|
    ensures Splice(Splice(s, p, Le(v)), p - 4, Le(w)) == Splice(s, p - 4, Le(w) + Le(v))
  {
    hide Le;
    SpliceBelow(s, p, Le(v), Le(w));
  }

  class Dbt {
    const data: array<byte>
    const ulen: u32
    var flags: bv32

    ghost predicate Valid()
    {
      4 <= ulen && data.Length == ulen
    }

    constructor (buffer: array<byte>)
      requires 4 <= buffer.Length < TWO32
      ensures Valid() && data == buffer && flags == 0
    {
      data, ulen, flags := buffer, buffer.Length, 0;
    }

    /** `*(u_int32_t *)(data + p)` */
    function Load(p: nat): (v: u32)
      requires p + 4 <= data.Length
      reads data
      ensures v == Word(data[..], p)
    {
      data[p] as int + 0x100 * (data[p + 1] as int) + 0x1_0000 * (data[p + 2] as int) + 0x100_0000 * (data[p + 3] as int)
    }

    /** `*(u_int32_t *)(data + p) = v` */
    method Store(p: nat, v: u32)
      requires p + 4 <= data.Length
      modifies data
      ensures data[..] == Splice(old(data[..]), p, Le(v))
    {
      data[p] := v % 0x100;
      data[p + 1] := v / 0x100 % 0x100;
      data[p + 2] := v / 0x100 / 0x100 % 0x100;
      data[p + 3] := v / 0x100 / 0x100 / 0x100;
    }

    /** `memcpy(data + dest, src, |src|)` */
    method Copy(dest: nat, src: seq<byte>)
      requires dest + |src| <= data.Length
      modifies data
      ensures data[..] == Splice(old(data[..]), dest, src)
    {
      for i := 0 to |src|
        invariant forall k :: 0 <= k < data.Length ==>
                    data[k] == if dest <= k < dest + i then src[k - dest] else old(data[k])
      {
        data[dest + i] := src[i];
      }
    }

    /** `__off` */
    method NextOffset(p: nat) returns (off: u32)
      requires Valid() && CursorOk(data[..], p)
      ensures off == Tail(data[..], p)
    {
      if p == ulen - 4 {
        off := 0;
      } else {
        off := (Load(p + 4) + Load(p + 8)) % TWO32;
      }
    }

    // -------------------------------------------------------------- writing

    method WriteInit() returns (pointer: Pointer)
      requires Valid()
      modifies data, this`flags
      ensures var b := BulkWriter.WriteInit(Plain, old(data[..]));
              data[..] == b.buf && pointer == At(b.cursor)
      ensures Word(data[..], ulen - 4) == 0xFFFF_FFFF
      ensures (flags & 0x002) == 0x002 && (flags & !0x002) == (old(flags) & !0x002)
    {
      hide Word;
      InitWord(Plain, data[..]);
      flags := flags | DB_DBT_BULK;
      Store(ulen - 4, 0xFFFF_FFFF);
      pointer := At(ulen - 4);
    }

    /** A refused reservation leaves the cursor and every byte as they were. */
    method ReserveNext(p: nat, len: nat) returns (pointer: Pointer, writedata: Option<nat>)
      requires Valid() && CursorOk(data[..], p)
      modifies data
      ensures match Reserve(Plain, old(data[..]), p, 0, len)
              case Rejected => data[..] == old(data[..]) && pointer == At(p) && writedata == None
              case Reserved(b, dest) => data[..] == b.buf && pointer == At(b.cursor) && writedata == Some(dest)
      ensures writedata.Some? ==>
                && pointer == At(p - 8)
                && Word(data[..], p) == writedata.value && Word(data[..], p - 4) == len && Word(data[..], p - 8) == 0xFFFF_FFFF
    {
      hide Splice, Le, Tail, Word;
      ReserveWords(Plain, data[..], p, 0, len);
      var off := NextOffset(p);
      if off + len > p - 8 {
        pointer, writedata := At(p), None;
      } else {
        Store(p, off);
        Store(p - 4, len % TWO32);
        Store(p - 8, 0xFFFF_FFFF);
        TwoStores(old(data[..]), p, off, len);
        SpliceBelow(old(data[..]), p - 4, Le(len) + Le(off), Le(0xFFFF_FFFF));
        pointer, writedata := At(p - 8), Some(off);
        assert Header(Plain, Slot(0, off, len)) == Le(len) + Le(off);
      }
    }

    /** A refused write makes the cursor null and leaves every byte as it was. */
    method WriteNext(p: nat, bytes: seq<byte>) returns (pointer: Pointer)
      requires Valid() && CursorOk(data[..], p)
      modifies data
      ensures match Write(Plain, old(data[..]), p, Entry(0, bytes))
              case None => data[..] == old(data[..]) && pointer == Null
              case Some(b) => data[..] == b.buf && pointer == At(b.cursor)
    {
      hide Splice, Le, Tail, Word, Reserve;
      var dest;
      pointer, dest := ReserveNext(p, |bytes|);
      if dest.None? {
        pointer := Null;
      } else {
        Copy(dest.value, bytes);
      }
    }

    method KeyReserveNext(p: nat, klen: nat, dlen: nat)
      returns (pointer: Pointer, writekey: Option<nat>, writedata: Option<nat>)
      requires Valid() && CursorOk(data[..], p)
      modifies data
      ensures match PairReserve(old(data[..]), p, klen, dlen)
              case PairRejected => data[..] == old(data[..]) && pointer == At(p) && writekey == None && writedata == None
              case PairReserved(b, k, d) =>
                data[..] == b.buf && pointer == At(b.cursor) && writekey == Some(k) && writedata == Some(d)
      ensures writekey.Some? ==>
                && writedata.Some? && pointer == At(p - 16)
                && Word(data[..], p) == writekey.value && Word(data[..], p - 4) == klen
                && Word(data[..], p - 8) == writedata.value && Word(data[..], p - 12) == dlen
                && Word(data[..], p - 16) == 0xFFFF_FFFF
    {
      hide Splice, Le, Tail, Word;
      PairReserveWords(data[..], p, klen, dlen);
      var off := NextOffset(p);
      if off + klen + dlen > p - 16 {
        pointer, writekey, writedata := At(p), None, None;
      } else {
        ghost var was := data[..];
        writekey := Some(off);
        Store(p, off);
        Store(p - 4, klen % TWO32);
        TwoStores(was, p, off, klen);
        ghost var h1 := Le(klen) + Le(off);
        var q, off' := p - 8, (off + klen % TWO32) % TWO32;
        writedata := Some(off');
        Store(q, off');
        Store(q - 4, dlen % TWO32);
        ghost var h2 := Le(dlen) + Le(off');
        TwoStores(Splice(was, p - 4, h1), q, off', dlen);
        SpliceBelow(was, p - 4, h1, h2);
        Store(q - 8, 0xFFFF_FFFF);
        SpliceBelow(was, q - 4, h2 + h1, Le(0xFFFF_FFFF));
        pointer := At(q - 8);
        assert Header(Plain, Slot(0, off, klen)) == h1 && Header(Plain, Slot(0, off', dlen)) == h2;
      }
    }

    method KeyWriteNext(p: nat, key: seq<byte>, bytes: seq<byte>) returns (pointer: Pointer)
      requires Valid() && CursorOk(data[..], p)
      modifies data
      ensures match PairWrite(old(data[..]), p, key, bytes)
              case None => data[..] == old(data[..]) && pointer == Null
              case Some(b) => data[..] == b.buf && pointer == At(b.cursor)
    {
      hide Splice, Le, Tail, Word, PairReserve;
      var destk, destd;
      pointer, destk, destd := KeyReserveNext(p, |key|, |bytes|);
      if destk.None? {
        pointer := Null;
      } else {
        Copy(destk.value, key);
        if destd.Some? {
          Copy(destd.value, bytes);
        }
      }
    }

    method RecnoWriteInit() returns (pointer: Pointer)
      requires Valid()
      modifies data, this`flags
      ensures var b := BulkWriter.WriteInit(Recno, old(data[..]));
              data[..] == b.buf && pointer == At(b.cursor)
      ensures Word(data[..], ulen - 4) == 0
      ensures (flags & 0x002) == 0x002 && (flags & !0x002) == (old(flags) & !0x002)
    {
      hide Word;
      InitWord(Recno, data[..]);
      flags := flags | DB_DBT_BULK;
      Store(ulen - 4, 0);
      pointer := At(ulen - 4);
    }

    method RecnoReserveNext(p: nat, recno: u32, len: nat) returns (pointer: Pointer, writedata: Option<nat>)
      requires Valid() && CursorOk(data[..], p)
      modifies data
      ensures match Reserve(Recno, old(data[..]), p, recno, len)
              case Rejected => data[..] == old(data[..]) && pointer == At(p) && writedata == None
              case Reserved(b, dest) => data[..] == b.buf && pointer == At(b.cursor) && writedata == Some(dest)
      ensures writedata.Some? ==>
                && pointer == At(p - 12)
                && Word(data[..], p) == recno && Word(data[..], p - 4) == writedata.value
                && Word(data[..], p - 8) == len && Word(data[..], p - 12) == 0
    {
      hide Splice, Le, Tail, Word;
      ReserveWords(Recno, data[..], p, recno, len);
      var off := NextOffset(p);
      if off + len > p - 12 {
        pointer, writedata := At(p), None;
      } else {
        ghost var was := data[..];
        Store(p, recno);
        Store(p - 4, off);
        Store(p - 8, len % TWO32);
        Store(p - 12, 0);
        TwoStores(was, p, recno, off);
        SpliceBelow(was, p - 4, Le(off) + Le(recno), Le(len));
        Associative(Le(len), Le(off), Le(recno));
        SpliceBelow(was, p - 8, Le(len) + (Le(off) + Le(recno)), Le(0));
        pointer, writedata := At(p - 12), Some(off);
      }
    }

    method RecnoWriteNext(p: nat, recno: u32, bytes: seq<byte>) returns (pointer: Pointer)
      requires Valid() && CursorOk(data[..], p)
      modifies data
      ensures match Write(Recno, old(data[..]), p, Entry(recno, bytes))
              case None => data[..] == old(data[..]) && pointer == Null
              case Some(b) => data[..] == b.buf && pointer == At(b.cursor)
    {
      hide Le, Tail, Word, Reserve;
      var dest;
      pointer, dest := RecnoReserveNext(p, recno, |bytes|);
      if dest.None? {
        pointer := Null;
      } else if |bytes| != 0 {
        Copy(dest.value, bytes);
      }
    }

    // -------------------------------------------------------------- reading

    method Init() returns (pointer: Pointer)
      requires Valid()
      ensures pointer == At(Top(data[..]))
    {
      pointer := At(ulen - 4);
    }

    /** At the sentinel `retdlen` keeps the value the caller's variable had. */
    method Next(p: nat, len0: u32) returns (pointer: Pointer, retdata: Option<nat>, retdlen: u32)
      requires Valid() && BulkReader.Next(data[..], p) != Fault
      ensures match BulkReader.Next(data[..], p)
              case Done => pointer == Null && retdata == None && retdlen == len0
              case Got(c, q) => pointer == At(q) && retdata == c.data && retdlen == c.len
      ensures p + 4 <= data.Length && (pointer == Null <==> Word(data[..], p) == 0xFFFF_FFFF)
      ensures retdata.Some? ==> retdata.value == Word(data[..], p)
    {
      hide Word;
      if Load(p) == 0xFFFF_FFFF {
        pointer, retdata, retdlen := Null, None, len0;
      } else {
        var off := Load(p);
        retdata, retdlen := Some(off), Load(p - 4);
        pointer := At(p - 8);
        if retdlen == 0 && off == 0 {
          retdata := None;
        }
      }
    }

    method KeyNext(p: nat, klen0: u32, dlen0: u32)
      returns (pointer: Pointer, retkey: Option<nat>, retklen: u32, retdata: Option<nat>, retdlen: u32)
      requires Valid() && BulkReader.KeyNext(data[..], p) != Fault
      ensures match BulkReader.KeyNext(data[..], p)
              case Done => pointer == Null && retkey == None && retdata == None && retklen == klen0 && retdlen == dlen0
              case Got(kd, q) =>
                && pointer == At(q)
                && retkey == Some(kd.key.off) && retklen == kd.key.len
                && retdata == Some(kd.data.off) && retdlen == kd.data.len
      ensures p + 4 <= data.Length && (pointer == Null <==> Word(data[..], p) == 0xFFFF_FFFF)
      ensures retkey.Some? <==> pointer != Null
    {
      hide Word;
      if Load(p) == 0xFFFF_FFFF {
        pointer, retkey, retklen, retdata, retdlen := Null, None, klen0, None, dlen0;
      } else {
        retkey, retklen := Some(Load(p)), Load(p - 4);
        retdata, retdlen := Some(Load(p - 8)), Load(p - 12);
        pointer := At(p - 16);
      }
    }

    method RecnoNext(p: nat, len0: u32) returns (pointer: Pointer, recno: u32, retdata: Option<nat>, retdlen: u32)
      requires Valid() && Head(Recno, data[..], p) != Fault
      ensures match Head(Recno, data[..], p)
              case Done => pointer == Null && recno == 0 && retdata == None && retdlen == len0
              case Got(s, q) => pointer == At(q) && recno == s.recno && retdata == Some(s.off) && retdlen == s.len
      ensures p + 4 <= data.Length && (pointer == Null <==> Word(data[..], p) == 0)
    {
      hide Word;
      if Load(p) == 0 {
        pointer, recno, retdata, retdlen := Null, 0, None, len0;
      } else {
        recno, retdata, retdlen := Load(p), Some(Load(p - 4)), Load(p - 8);
        pointer := At(p - 12);
      }
    }
  }
}
