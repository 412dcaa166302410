/** MOGN: the group-name block of a WMO root file. Groups refer to their
    internal and descriptive names by byte offset into this block. */
module ModelGroupNames {
  import opened Binary
  import opened StringBlock
  import ModelGroup

  const Signature: seq<byte> := Ascii("MOGN")

  /** The offset-to-name dictionary, as its entries in insertion order. */
  datatype ModelGroupNames = ModelGroupNames(groupNames: seq<Entry>)

  /** Dictionary.Add: inserting a key already present throws. */
  function AddAll(dict: seq<Entry>, es: seq<Entry>): (r: Result<seq<Entry>>)
    decreases |es|
  {
    if |es| == 0 then Ok(dict)
    else if Find(dict, es[0].offset).Some? then Err(DuplicateKey)
    else AddAll(dict + [es[0]], es[1..])
  }

  /** Inserting entries with pairwise distinct keys into a dictionary that
      holds none of them never throws and keeps insertion order. */
  lemma {:induction false} AddAllDistinct(dict: seq<Entry>, es: seq<Entry>)
    requires DistinctOffsets(dict + es)
    ensures AddAll(dict, es) == Ok(dict + es)
    decreases |es|
  {
    if |es| == 0 {
      assert dict + es == dict;
    } else {
      forall i | 0 <= i < |dict|
        ensures dict[i].offset != es[0].offset
      {
        assert dict[i] == (dict + es)[i];
        assert es[0] == (dict + es)[|dict|];
      }
      assert dict + [es[0]] + es[1..] == dict + es;
      AddAllDistinct(dict + [es[0]], es[1..]);
    }
  }

  /** Every string of the body keyed by its start offset. Keys start at 0
      and strictly increase, each by the previous name's length plus one, so
      no insertion throws; empty strings are kept, so there is one entry per
      zero byte. A body whose last string has no terminator makes the string
      read fail. */
  function Load(body: seq<byte>): (r: Result<ModelGroupNames>)
    ensures r.Ok? <==> |body| == 0 || body[|body| - 1] == 0
    ensures r.Ok? ==> r.value.groupNames == Scan(body, 0).value
    ensures r.Ok? ==> var es := r.value.groupNames;
                      && IncreasingOffsets(es)
                      && (|body| > 0 ==> |es| > 0 && es[0].offset == 0)
                      && (forall i :: 0 <= i < |es| - 1 ==> es[i + 1].offset == es[i].offset + |es[i].name| + 1)
                      && |es| == CountZeros(body)
  {
    var entries :- Scan(body, 0);
    ScanOffsets(body);
    AddScanned(body);
    Ok(ModelGroupNames(AddAll([], entries).value))
  }

  /** The scanned entries go into an empty dictionary without a clash. */
  lemma AddScanned(body: seq<byte>)
    requires Scan(body, 0).Ok?
    ensures AddAll([], Scan(body, 0).value) == Ok(Scan(body, 0).value)
  {
    var entries := Scan(body, 0).value;
    ScanOffsets(body);
    assert [] + entries == entries;
    AddAllDistinct([], entries);
  }

  /** The unchecked `(int)` cast of a uint: the int32 congruent to it modulo
      2^32, so values from 2^31 on turn negative. */
  function ToInt32(u: uint32): (r: int)
    ensures -0x8000_0000 <= r < 0x8000_0000
    ensures (u - r) % 0x1_0000_0000 == 0
  {
    if u < 0x8000_0000 then u else u - 0x1_0000_0000
  }

  /** The dictionary lookup both name accessors share. */
  function NameAtOffset(names: ModelGroupNames, offset: uint32): (r: Result<seq<byte>>)
    ensures r.Ok? <==> exists i :: 0 <= i < |names.groupNames| && names.groupNames[i].offset == ToInt32(offset)
    ensures r.Ok? ==> exists i :: && 0 <= i < |names.groupNames|
                                  && names.groupNames[i] == Entry(ToInt32(offset), r.value)
    ensures r.Err? ==> r.error == NotFound
  {
    match Find(names.groupNames, ToInt32(offset))
    case Some(name) => Ok(name)
    case None => Err(NotFound)
  }

  function GetInternalGroupName(names: ModelGroupNames, group: ModelGroup.ModelGroup): (r: Result<seq<byte>>)
    ensures r.Ok? <==> exists i :: && 0 <= i < |names.groupNames|
                                   && names.groupNames[i].offset == ToInt32(group.groupData.groupNameOffset)
    ensures r.Ok? ==> exists i :: && 0 <= i < |names.groupNames|
                                  && names.groupNames[i] == Entry(ToInt32(group.groupData.groupNameOffset), r.value)
  {
    NameAtOffset(names, ModelGroup.GetInternalNameOffset(group))
  }

  function GetInternalDescriptiveGroupName(names: ModelGroupNames, group: ModelGroup.ModelGroup): (r: Result<seq<byte>>)
    ensures r.Ok? <==> exists i :: && 0 <= i < |names.groupNames|
                                   && names.groupNames[i].offset == ToInt32(group.groupData.descriptiveGroupNameOffset)
    ensures r.Ok? ==> exists i :: && 0 <= i < |names.groupNames|
                                  && names.groupNames[i] == Entry(ToInt32(group.groupData.descriptiveGroupNameOffset), r.value)
  {
    NameAtOffset(names, ModelGroup.GetInternalDescriptiveNameOffset(group))
  }

  /** On a loaded block an offset of 2^31 or more is never found: the cast
      makes it negative, and every key the loader adds is a position in the
      body. */
  lemma HighOffsetNeverFound(body: seq<byte>, offset: uint32)
    requires Load(body).Ok? && offset >= 0x8000_0000
    ensures NameAtOffset(Load(body).value, offset) == Err(NotFound)
  {
    assert ToInt32(offset) < 0;
  }

  /** On a loaded block, a lookup succeeds exactly when the offset is below
      2^31 and a string of the body starts there; what it returns is that
      string, up to its terminator. Mid-string offsets fail. */
  lemma LookupAfterLoad(body: seq<byte>, offset: uint32)
    requires Load(body).Ok?
    ensures NameAtOffset(Load(body).value, offset).Ok?
            <==> offset < 0x8000_0000 && IsStringStart(body, offset)
    ensures NameAtOffset(Load(body).value, offset).Ok? ==>
              var v := NameAtOffset(Load(body).value, offset).value;
              ZeroFree(v) && Located(body, Entry(offset, v))
  {
    LookupAfterScan(body, ToInt32(offset));
    assert Load(body).value.groupNames == Scan(body, 0).value;
    if offset >= 0x8000_0000 {
      HighOffsetNeverFound(body, offset);
    }
  }

  function Zeros(n: nat): (z: seq<byte>)
    ensures |z| == n
    ensures forall i :: 0 <= i < n ==> z[i] == 0
  {
    seq(n, _ => 0)
  }

  /** The number of padding bytes the writer appends after `written` bytes. */
  function PaddingAfter(written: nat): (n: nat)
    ensures n < 4 && (written + n) % 4 == 0
  {
    var count := 4 - written % 4;
    if count >= 4 then 0 else count
  }

  /** Two zero bytes, each name and its terminator in entry order (offsets
      are ignored), then zero bytes up to a multiple of four. */
  function Serialize(names: ModelGroupNames): (r: seq<byte>)
    ensures var text := JoinNames(Names(names.groupNames));
            && 2 + |text| <= |r| < 2 + |text| + 4
            && |r| % 4 == 0
            && r[..2] == [0, 0]
            && r[2..2 + |text|] == text
            && forall i :: 2 + |text| <= i < |r| ==> r[i] == 0
  {
    var written := [0, 0] + JoinNames(Names(names.groupNames));
    written + Zeros(PaddingAfter(|written|))
  }

  function EmptyNames(n: nat): (names: seq<seq<byte>>)
    ensures |names| == n
    ensures forall i :: 0 <= i < n ==> names[i] == []
  {
    seq(n, _ => [])
  }

  lemma {:induction false} JoinEmptyNames(n: nat)
    ensures JoinNames(EmptyNames(n)) == Zeros(n)
    ensures TotalSize(EmptyNames(n)) == n
    decreases n
  {
    if n > 0 {
      assert EmptyNames(n)[1..] == EmptyNames(n - 1);
      JoinEmptyNames(n - 1);
    }
  }

  /** What Serialize writes, read as a list of names: two empty names, the
      entries' names, then one empty name per padding byte. */
  lemma SerializedNames(names: ModelGroupNames)
    ensures var ns := Names(names.groupNames);
            Serialize(names) == JoinNames(EmptyNames(2) + ns + EmptyNames(PaddingAfter(2 + TotalSize(ns))))
  {
    var ns := Names(names.groupNames);
    var pad := PaddingAfter(2 + TotalSize(ns));
    JoinNamesSize(ns);
    JoinEmptyNames(2);
    JoinEmptyNames(pad);
    JoinNamesAppend(EmptyNames(2) + ns, EmptyNames(pad));
    JoinNamesAppend(EmptyNames(2), ns);
  }

  /** The offsets of two empty names, the entries' names and the padding
      names, laid out from 0. */
  lemma SerializedLayout(ns: seq<seq<byte>>, pad: nat)
    ensures Layout(EmptyNames(2) + ns + EmptyNames(pad), 0)
            == [Entry(0, []), Entry(1, [])] + Layout(ns, 2) + Layout(EmptyNames(pad), 2 + TotalSize(ns))
  {
    var front := EmptyNames(2) + ns;
    LayoutAppend(front, EmptyNames(pad), 0);
    LayoutAppend(EmptyNames(2), ns, 0);
    PrefixSize(ns);
    PrefixLayout();
    assert Layout(front, 0) == [Entry(0, []), Entry(1, [])] + Layout(ns, 2);
  }

  /** The two leading empty names sit at offsets 0 and 1. */
  lemma PrefixLayout()
    ensures Layout(EmptyNames(2), 0) == [Entry(0, []), Entry(1, [])]
    ensures TotalSize(EmptyNames(2)) == 2
  {
    var empty: seq<byte> := [];
    var two := EmptyNames(2);
    assert two == [empty, empty];
    var tail: seq<seq<byte>> := two[1..];
    assert tail == [empty];
    assert |tail[1..]| == 0;
  }

  /** Two empty names and their terminators take two bytes. */
  lemma PrefixSize(ns: seq<seq<byte>>)
    ensures TotalSize(EmptyNames(2) + ns) == 2 + TotalSize(ns)
  {
    JoinEmptyNames(2);
    JoinNamesAppend(EmptyNames(2), ns);
    JoinNamesSize(EmptyNames(2) + ns);
    JoinNamesSize(ns);
  }

  lemma SerializedZeroFree(ns: seq<seq<byte>>, pad: nat)
    requires AllZeroFree(ns)
    ensures AllZeroFree(EmptyNames(2) + ns + EmptyNames(pad))
  {
    var all := EmptyNames(2) + ns + EmptyNames(pad);
    forall k | 0 <= k < |all|
      ensures ZeroFree(all[k])
    {
      if 2 <= k < 2 + |ns| {
        assert all[k] == ns[k - 2];
      }
    }
  }

  /** Serialize is not Load's inverse: reloading its output yields an empty
      name at offset 0 and another at offset 1, then the names from offset 2
      on, then one empty name per padding byte. */
  lemma ReloadSerialized(names: ModelGroupNames)
    requires AllZeroFree(Names(names.groupNames))
    ensures var ns := Names(names.groupNames);
            var pad := PaddingAfter(2 + TotalSize(ns));
            Load(Serialize(names)) == Ok(ModelGroupNames(
              [Entry(0, []), Entry(1, [])]
              + Layout(ns, 2)
              + Layout(EmptyNames(pad), 2 + TotalSize(ns))))
  {
    var ns := Names(names.groupNames);
    var pad := PaddingAfter(2 + TotalSize(ns));
    var text := JoinNames(EmptyNames(2) + ns + EmptyNames(pad));
    assert Serialize(names) == text by {
      SerializedNames(names);
    }
    assert Load(text) == Ok(ModelGroupNames(
             [Entry(0, []), Entry(1, [])] + Layout(ns, 2) + Layout(EmptyNames(pad), 2 + TotalSize(ns)))) by {
      ReloadJoined(ns, pad);
    }
  }

  /** Loading two empty names, zero-free names and `pad` empty names, all
      written with terminators. */
  lemma ReloadJoined(ns: seq<seq<byte>>, pad: nat)
    requires AllZeroFree(ns)
    ensures Load(JoinNames(EmptyNames(2) + ns + EmptyNames(pad))) == Ok(ModelGroupNames(
              [Entry(0, []), Entry(1, [])] + Layout(ns, 2) + Layout(EmptyNames(pad), 2 + TotalSize(ns))))
  {
    var all := EmptyNames(2) + ns + EmptyNames(pad);
    SerializedZeroFree(ns, pad);
    LoadJoin(all);
    SerializedLayout(ns, pad);
  }

  /** Zero-free names written with terminators load back at their
      running-sum offsets. */
  lemma LoadJoin(all: seq<seq<byte>>)
    requires AllZeroFree(all)
    ensures Load(JoinNames(all)) == Ok(ModelGroupNames(Layout(all, 0)))
  {
    ScanJoinNames(all);
  }

  /** A block holding the single name "a" at offset 0 does not survive a
      write and reload. */
  lemma SerializeLoadCounterexample()
    ensures var names := ModelGroupNames([Entry(0, [0x61])]);
            Load(Serialize(names)) != Ok(names)
  {
    var names := ModelGroupNames([Entry(0, [0x61])]);
    assert Names(names.groupNames) == [[0x61]];
    ReloadSerialized(names);
  }
}
