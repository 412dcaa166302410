/** MODN: the doodad-path block of a WMO root file. Other chunks refer to a
    path by the byte offset at which it starts in this block. */
module ModelDoodadPaths {
  import opened Binary
  import opened StringBlock
  import opened Sequences

  const Signature: seq<byte> := Ascii("MODN")

  /** The one-character string "\0" the loader filters out. */
  const NullName: seq<byte> := [0]

  /** The paths with their offsets, in list order. */
  datatype ModelDoodadPaths = ModelDoodadPaths(doodadNames: seq<Entry>)

  function GetSignature(): (r: seq<byte>)
    ensures r == [0x4D, 0x4F, 0x44, 0x4E]
  {
    Signature
  }

  /** List.RemoveAll on entries whose value is "\0": the survivors keep their
      offsets and their relative order. */
  function RemoveNullEntries(es: seq<Entry>): (r: seq<Entry>)
    ensures forall i :: 0 <= i < |r| ==> r[i].name != NullName
    ensures forall e :: e in r <==> e in es && e.name != NullName
    ensures IsSubsequence(r, es)
    decreases |es|
  {
    if |es| == 0 then []
    else
      var rest := RemoveNullEntries(es[1..]);
      assert forall e :: e in es <==> e == es[0] || e in es[1..];
      if es[0].name == NullName then
        assert IsSubsequence(rest, es[1..]);
        rest
      else
        assert ([es[0]] + rest)[1..] == rest;
        [es[0]] + rest
  }

  /** RemoveAll drops only the "\0" entries and keeps every other entry as
      many times as it occurs, repeats included. */
  lemma {:induction false} RemoveNullEntriesCounts(es: seq<Entry>)
    ensures forall e :: multiset(RemoveNullEntries(es))[e]
                        == if e.name == NullName then 0 else multiset(es)[e]
    decreases |es|
  {
    if |es| > 0 {
      RemoveNullEntriesCounts(es[1..]);
      assert es == [es[0]] + es[1..];
    }
  }

  /** Names the string reader returns never hold a zero byte, so none of
      them is "\0" and the filter keeps every entry. */
  lemma {:induction false} RemoveNullEntriesKeepsZeroFree(es: seq<Entry>)
    requires AllZeroFree(Names(es))
    ensures RemoveNullEntries(es) == es
    decreases |es|
  {
    if |es| > 0 {
      var rest := es[1..];
      assert es[0].name != NullName by {
        assert ZeroFree(Names(es)[0]);
        assert |es[0].name| != 1 || es[0].name[0] != 0;
      }
      assert AllZeroFree(Names(rest)) by {
        assert Names(rest) == Names(es)[1..];
        ZeroFreeTail(Names(es));
      }
      RemoveNullEntriesKeepsZeroFree(rest);
      assert RemoveNullEntries(es) == [es[0]] + RemoveNullEntries(rest);
      assert es == [es[0]] + rest;
    }
  }

  /** Every string of the body keyed by its start offset, from 0 to the end
      and in increasing offset order; zero-length strings are kept. A body
      whose last string has no terminator makes the string read fail. */
  function Load(body: seq<byte>): (r: Result<ModelDoodadPaths>)
    ensures r.Ok? <==> |body| == 0 || body[|body| - 1] == 0
    ensures r.Ok? ==> forall i :: 0 <= i < |r.value.doodadNames| ==> r.value.doodadNames[i].name != NullName
    ensures r.Ok? ==> var es := r.value.doodadNames;
                      && IncreasingOffsets(es)
                      && (|body| > 0 ==> |es| > 0 && es[0].offset == 0)
                      && (forall i :: 0 <= i < |es| - 1 ==> es[i + 1].offset == es[i].offset + |es[i].name| + 1)
                      && |es| == CountZeros(body)
  {
    var entries :- Scan(body, 0);
    ScanLayout(body, 0);
    ScanOffsets(body);
    RemoveNullEntriesKeepsZeroFree(entries);
    Ok(ModelDoodadPaths(RemoveNullEntries(entries)))
  }

  /** The filter removes nothing a load read: the loaded list is the scan. */
  lemma LoadIsScan(body: seq<byte>)
    requires Load(body).Ok?
    ensures Load(body).value.doodadNames == Scan(body, 0).value
  {
    ScanLayout(body, 0);
    RemoveNullEntriesKeepsZeroFree(Scan(body, 0).value);
  }

  /** The value of the first entry stored under exactly `nameOffset`, or the
      empty string when there is none. */
  function GetNameByOffset(paths: ModelDoodadPaths, nameOffset: uint32): (r: seq<byte>)
    ensures (forall i :: 0 <= i < |paths.doodadNames| ==> paths.doodadNames[i].offset != nameOffset)
            ==> r == []
    ensures forall i :: && 0 <= i < |paths.doodadNames| && paths.doodadNames[i].offset == nameOffset
                        && (forall j :: 0 <= j < i ==> paths.doodadNames[j].offset != nameOffset)
                        ==> r == paths.doodadNames[i].name
  {
    match Find(paths.doodadNames, nameOffset)
    case Some(name) =>
      FindFirst(paths.doodadNames, nameOffset);
      name
    case None => []
  }

  /** Find returns the name of the earliest entry with the offset. */
  lemma FindFirst(es: seq<Entry>, o: int)
    requires Find(es, o).Some?
    ensures forall i :: && 0 <= i < |es| && es[i].offset == o
                        && (forall j :: 0 <= j < i ==> es[j].offset != o)
                        ==> Find(es, o).value == es[i].name
  {
    var k :| && 0 <= k < |es| && es[k].offset == o && es[k].name == Find(es, o).value
             && forall j :: 0 <= j < k ==> es[j].offset != o;
    forall i | && 0 <= i < |es| && es[i].offset == o
               && (forall j :: 0 <= j < i ==> es[j].offset != o)
      ensures Find(es, o).value == es[i].name
    {
      assert !(i < k) && !(k < i);
    }
  }

  /** On a loaded block, a lookup at a string start returns that string up to
      its terminator; at any other offset, a mid-string one included, it
      returns the empty string instead of failing. */
  lemma LookupAfterLoad(body: seq<byte>, nameOffset: uint32)
    requires Load(body).Ok?
    ensures IsStringStart(body, nameOffset) ==>
              var v := GetNameByOffset(Load(body).value, nameOffset);
              ZeroFree(v) && Located(body, Entry(nameOffset, v))
    ensures !IsStringStart(body, nameOffset) ==> GetNameByOffset(Load(body).value, nameOffset) == []
  {
    LoadIsScan(body);
    LookupAfterScan(body, nameOffset);
  }

  /** Each value followed by exactly one zero byte, in list order; no prefix
      and no padding. */
  function Serialize(paths: ModelDoodadPaths): (r: seq<byte>)
    ensures |r| == TotalSize(Names(paths.doodadNames))
  {
    JoinNamesSize(Names(paths.doodadNames));
    JoinNames(Names(paths.doodadNames))
  }

  /** Each value of a serialized list sits at the running sum of the earlier
      values' lengths plus one, followed by a zero byte. */
  lemma SerializeLocates(paths: ModelDoodadPaths)
    ensures var names := Names(paths.doodadNames);
            forall i :: 0 <= i < |names| ==> Located(Serialize(paths), Layout(names, 0)[i])
  {
    var body := Serialize(paths);
    assert body[0..] == body;
    LayoutLocates(body, 0, Names(paths.doodadNames));
  }

  /** Round trip: when no value holds a zero byte, loading the serialized
      list gives the same values in the same order, each keyed by the running
      sum of (length + 1) of the values before it. */
  lemma LoadSerialize(paths: ModelDoodadPaths)
    requires AllZeroFree(Names(paths.doodadNames))
    ensures Load(Serialize(paths)) == Ok(ModelDoodadPaths(Layout(Names(paths.doodadNames), 0)))
    ensures Names(Load(Serialize(paths)).value.doodadNames) == Names(paths.doodadNames)
  {
    var names := Names(paths.doodadNames);
    ScanJoinNames(names);
    LayoutNames(names, 0);
    LoadIsScan(Serialize(paths));
  }

  /** Serializing a loaded block reproduces it byte for byte. */
  lemma SerializeLoad(body: seq<byte>)
    requires Load(body).Ok?
    ensures Serialize(Load(body).value) == body
  {
    LoadIsScan(body);
    ScanLayout(body, 0);
    assert body[0..] == body;
  }

  /** A list whose offsets are already the layout of its values survives a
      write and reload unchanged. */
  lemma LoadSerializeLaidOut(paths: ModelDoodadPaths)
    requires AllZeroFree(Names(paths.doodadNames))
    requires paths.doodadNames == Layout(Names(paths.doodadNames), 0)
    ensures Load(Serialize(paths)) == Ok(paths)
  {
    LoadSerialize(paths);
  }
}
