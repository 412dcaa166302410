/** Offset-keyed string blocks: a chunk body made of back-to-back
    null-terminated strings, each identified by the byte offset at which it
    starts. Shared by the group-name (MOGN), doodad-path (MODN) and terrain
    model (MMDX) chunks. */
module StringBlock {
  import opened Binary

  predicate ZeroFree(s: seq<byte>) {
    forall i :: 0 <= i < |s| ==> s[i] != 0
  }

  predicate AllZeroFree(names: seq<seq<byte>>) {
    forall k :: 0 <= k < |names| ==> ZeroFree(names[k])
  }

  /** One string of a block and the offset of its first byte. */
  datatype Entry = Entry(offset: nat, name: seq<byte>)

  function Names(es: seq<Entry>): seq<seq<byte>>
  {
    seq(|es|, i requires 0 <= i < |es| => es[i].name)
  }

  /** Each name followed by one zero byte, in order: what writing the names
      one after another with a null-terminated string writer produces. */
  function JoinNames(names: seq<seq<byte>>): seq<byte>
  {
    if |names| == 0 then [] else names[0] + [0] + JoinNames(names[1..])
  }

  /** The bytes a list of names takes once each carries its terminator. */
  function TotalSize(names: seq<seq<byte>>): nat
  {
    if |names| == 0 then 0 else |names[0]| + 1 + TotalSize(names[1..])
  }

  /** The entries for `names` laid out back to back from `start`: each offset
      is `start` plus the lengths of the earlier names and their terminators. */
  function Layout(names: seq<seq<byte>>, start: nat): (es: seq<Entry>)
    ensures |es| == |names|
  {
    if |names| == 0 then []
    else [Entry(start, names[0])] + Layout(names[1..], start + |names[0]| + 1)
  }

  lemma {:induction false} LayoutNames(names: seq<seq<byte>>, start: nat)
    ensures Names(Layout(names, start)) == names
    decreases |names|
  {
    if |names| > 0 {
      LayoutNames(names[1..], start + |names[0]| + 1);
      assert Names(Layout(names, start))[1..] == Names(Layout(names[1..], start + |names[0]| + 1));
    }
  }

  /** Laying out two lists one after the other is laying out the second
      where the first ends. */
  lemma {:induction false} LayoutAppend(a: seq<seq<byte>>, b: seq<seq<byte>>, start: nat)
    ensures Layout(a + b, start) == Layout(a, start) + Layout(b, start + TotalSize(a))
    decreases |a|
  {
    if |a| == 0 {
      assert a + b == b;
    } else {
      var next := start + |a[0]| + 1;
      assert (a + b)[0] == a[0];
      assert (a + b)[1..] == a[1..] + b;
      assert Layout(a + b, start) == [Entry(start, a[0])] + Layout(a[1..] + b, next);
      LayoutAppend(a[1..], b, next);
      assert Layout(a, start) == [Entry(start, a[0])] + Layout(a[1..], next);
      assert TotalSize(a) == |a[0]| + 1 + TotalSize(a[1..]);
    }
  }

  /** Where a joined list of names sits at `start`, its first name is
      followed by a zero byte and the rest of the join. */
  lemma JoinedHead(body: seq<byte>, start: nat, names: seq<seq<byte>>)
    requires |names| > 0 && start <= |body| && body[start..] == JoinNames(names)
    ensures start + |names[0]| < |body|
    ensures body[start..start + |names[0]|] == names[0]
    ensures body[start + |names[0]|] == 0
    ensures body[start + |names[0]| + 1..] == JoinNames(names[1..])
  {
    var n := names[0];
    assert body[start..] == n + [0] + JoinNames(names[1..]);
    assert body[start..start + |n|] == body[start..][..|n|];
    assert body[start + |n|] == body[start..][|n|];
    assert body[start + |n| + 1..] == body[start..][|n| + 1..];
  }

  lemma ZeroFreeTail(names: seq<seq<byte>>)
    requires |names| > 0 && AllZeroFree(names)
    ensures ZeroFree(names[0]) && AllZeroFree(names[1..])
  {
    forall k | 0 <= k < |names[1..]|
      ensures ZeroFree(names[1..][k])
    {
      assert names[1..][k] == names[k + 1];
    }
  }

  /** A byte position at which a string of `body` begins. */
  predicate IsStringStart(body: seq<byte>, o: int) {
    0 <= o < |body| && (o == 0 || body[o - 1] == 0)
  }

  function CountZeros(s: seq<byte>): nat
  {
    if |s| == 0 then 0 else (if s[0] == 0 then 1 else 0) + CountZeros(s[1..])
  }

  /** The null-terminated string reader: the bytes from `pos` up to the next
      zero byte, and the position just after that zero byte, which it
      consumes. Running out of bytes before a zero byte is a failed read. */
  function ReadCString(body: seq<byte>, pos: nat): (r: Result<(seq<byte>, nat)>)
    requires pos <= |body|
    ensures r.Ok? <==> exists i :: pos <= i < |body| && body[i] == 0
    ensures r.Ok? ==>
              && ZeroFree(r.value.0)
              && r.value.1 == pos + |r.value.0| + 1 <= |body|
              && body[pos..r.value.1] == r.value.0 + [0]
    decreases |body| - pos
  {
    if pos == |body| then Err(TruncatedInput)
    else if body[pos] == 0 then Ok(([], pos + 1))
    else
      match ReadCString(body, pos + 1)
      case Err(e) => Err(e)
      case Ok((rest, next)) => Ok(([body[pos]] + rest, next))
  }

  /** `while (position < length) add(position, ReadNullTerminatedString())`:
      every string from `pos` to the end of `body`, keyed by its start. */
  function Scan(body: seq<byte>, pos: nat): (r: Result<seq<Entry>>)
    requires pos <= |body|
    ensures r.Ok? <==> pos == |body| || body[|body| - 1] == 0
    decreases |body| - pos
  {
    if pos == |body| then Ok([])
    else
      match ReadCString(body, pos)
      case Err(e) => Err(e)
      case Ok((name, next)) =>
        match Scan(body, next)
        case Err(e) => Err(e)
        case Ok(rest) => Ok([Entry(pos, name)] + rest)
  }

  /** A successful scan is a layout of zero-free names whose join is exactly
      the scanned bytes: offsets are running sums of (length + 1). */
  lemma ScanLayout(body: seq<byte>, pos: nat)
    requires pos <= |body| && Scan(body, pos).Ok?
    ensures var es := Scan(body, pos).value;
            && es == Layout(Names(es), pos)
            && AllZeroFree(Names(es))
            && JoinNames(Names(es)) == body[pos..]
  {
    ScanIsLayout(body, pos);
    ScanZeroFree(body, pos);
    ScanJoins(body, pos);
  }

  /** One successful scan step: a string read at `pos`, then the rest. */
  lemma ScanStep(body: seq<byte>, pos: nat)
    requires pos < |body| && Scan(body, pos).Ok?
    ensures ReadCString(body, pos).Ok?
    ensures var name := ReadCString(body, pos).value.0;
            var next := ReadCString(body, pos).value.1;
            && next <= |body|
            && Scan(body, next).Ok?
            && Scan(body, pos).value == [Entry(pos, name)] + Scan(body, next).value
            && Names(Scan(body, pos).value) == [name] + Names(Scan(body, next).value)
  {
    var name := ReadCString(body, pos).value.0;
    var next := ReadCString(body, pos).value.1;
    NamesCons(Entry(pos, name), Scan(body, next).value);
  }

  lemma {:induction false} ScanIsLayout(body: seq<byte>, pos: nat)
    requires pos <= |body| && Scan(body, pos).Ok?
    ensures Scan(body, pos).value == Layout(Names(Scan(body, pos).value), pos)
    decreases |body| - pos
  {
    if pos < |body| {
      ScanStep(body, pos);
      var name := ReadCString(body, pos).value.0;
      var next := ReadCString(body, pos).value.1;
      ScanIsLayout(body, next);
      var ns := Names(Scan(body, next).value);
      assert ([name] + ns)[1..] == ns;
      assert Layout([name] + ns, pos) == [Entry(pos, name)] + Layout(ns, next);
    }
  }

  lemma {:induction false} ScanZeroFree(body: seq<byte>, pos: nat)
    requires pos <= |body| && Scan(body, pos).Ok?
    ensures AllZeroFree(Names(Scan(body, pos).value))
    decreases |body| - pos
  {
    if pos < |body| {
      ScanStep(body, pos);
      var name := ReadCString(body, pos).value.0;
      var next := ReadCString(body, pos).value.1;
      ScanZeroFree(body, next);
      ConsZeroFree(name, Names(Scan(body, next).value));
    }
  }

  lemma {:induction false} ScanJoins(body: seq<byte>, pos: nat)
    requires pos <= |body| && Scan(body, pos).Ok?
    ensures JoinNames(Names(Scan(body, pos).value)) == body[pos..]
    decreases |body| - pos
  {
    if pos < |body| {
      ScanStep(body, pos);
      var name := ReadCString(body, pos).value.0;
      var next := ReadCString(body, pos).value.1;
      ScanJoins(body, next);
      JoinCons(name, Names(Scan(body, next).value));
      SliceSplit(body, pos, next);
    }
  }

  lemma JoinCons(name: seq<byte>, ns: seq<seq<byte>>)
    ensures JoinNames([name] + ns) == name + [0] + JoinNames(ns)
  {
    assert ([name] + ns)[1..] == ns;
  }

  lemma SliceSplit(body: seq<byte>, pos: nat, next: nat)
    requires pos <= next <= |body|
    ensures body[pos..] == body[pos..next] + body[next..]
  {
  }

  lemma NamesCons(e: Entry, rest: seq<Entry>)
    ensures Names([e] + rest) == [e.name] + Names(rest)
    ensures ([e.name] + Names(rest))[1..] == Names(rest)
  {
  }

  lemma ConsZeroFree(name: seq<byte>, rest: seq<seq<byte>>)
    requires ZeroFree(name) && AllZeroFree(rest)
    ensures AllZeroFree([name] + rest)
  {
    forall k | 0 <= k < |[name] + rest|
      ensures ZeroFree(([name] + rest)[k])
    {
      if k > 0 {
        assert ([name] + rest)[k] == rest[k - 1];
      }
    }
  }

  /** The first entry stored under offset `o`, if any. */
  function Find(es: seq<Entry>, o: int): (r: Option<seq<byte>>)
    ensures r.None? <==> forall i :: 0 <= i < |es| ==> es[i].offset != o
    ensures r.Some? ==>
              exists i :: && 0 <= i < |es| && es[i].offset == o && es[i].name == r.value
                          && forall j :: 0 <= j < i ==> es[j].offset != o
  {
    if |es| == 0 then None
    else if es[0].offset == o then Some(es[0].name)
    else
      var r := Find(es[1..], o);
      if r.Some? then
        var i :| && 0 <= i < |es[1..]| && es[1..][i].offset == o && es[1..][i].name == r.value
                 && forall j :: 0 <= j < i ==> es[1..][j].offset != o;
        assert es[i + 1] == es[1..][i];
        r
      else r
  }

  lemma JoinNamesSize(names: seq<seq<byte>>)
    ensures |JoinNames(names)| == TotalSize(names)
  {
  }

  lemma JoinNamesAppend(a: seq<seq<byte>>, b: seq<seq<byte>>)
    ensures JoinNames(a + b) == JoinNames(a) + JoinNames(b)
  {
    if |a| == 0 {
      assert a + b == b;
    } else {
      assert (a + b)[0] == a[0];
      assert (a + b)[1..] == a[1..] + b;
      JoinNamesAppend(a[1..], b);
    }
  }

  lemma {:induction false} CountZerosAppend(a: seq<byte>, b: seq<byte>)
    ensures CountZeros(a + b) == CountZeros(a) + CountZeros(b)
    decreases |a|
  {
    if |a| == 0 {
      assert a + b == b;
    } else {
      assert (a + b)[0] == a[0];
      assert (a + b)[1..] == a[1..] + b;
      CountZerosAppend(a[1..], b);
    }
  }

  lemma {:induction false} CountZerosZeroFree(s: seq<byte>)
    requires ZeroFree(s)
    ensures CountZeros(s) == 0
    decreases |s|
  {
    if |s| > 0 {
      CountZerosZeroFree(s[1..]);
    }
  }

  /** A block holds as many strings as it holds zero bytes: every terminator
      closes one entry, empty strings included. */
  lemma {:induction false} EntryCountIsZeroCount(names: seq<seq<byte>>)
    requires AllZeroFree(names)
    ensures CountZeros(JoinNames(names)) == |names|
    decreases |names|
  {
    if |names| > 0 {
      CountZerosZeroFree(names[0]);
      CountZerosAppend(names[0], [0]);
      CountZerosAppend(names[0] + [0], JoinNames(names[1..]));
      EntryCountIsZeroCount(names[1..]);
    }
  }

  /** Reading at the start of `n` followed by a zero byte yields `n`. */
  lemma {:induction false} ReadCStringOf(body: seq<byte>, pos: nat, n: seq<byte>)
    requires ZeroFree(n)
    requires pos + |n| < |body|
    requires body[pos..pos + |n|] == n && body[pos + |n|] == 0
    ensures ReadCString(body, pos) == Ok((n, pos + |n| + 1))
    decreases |n|
  {
    if |n| > 0 {
      assert body[pos] == n[0];
      assert body[pos + 1..pos + 1 + |n[1..]|] == n[1..];
      ReadCStringOf(body, pos + 1, n[1..]);
      assert [body[pos]] + n[1..] == n;
    }
  }

  /** Scanning bytes that are a join of zero-free names gives those names
      back, each at its running-sum offset. */
  lemma {:induction false} ScanJoin(body: seq<byte>, pos: nat, names: seq<seq<byte>>)
    requires AllZeroFree(names)
    requires pos <= |body| && body[pos..] == JoinNames(names)
    ensures Scan(body, pos) == Ok(Layout(names, pos))
    decreases |names|
  {
    if |names| == 0 {
      assert |body[pos..]| == 0;
    } else {
      var n := names[0];
      var next := pos + |n| + 1;
      JoinedHead(body, pos, names);
      ZeroFreeTail(names);
      ReadCStringOf(body, pos, n);
      ScanJoin(body, next, names[1..]);
      assert Scan(body, pos) == Ok([Entry(pos, n)] + Layout(names[1..], next));
    }
  }

  /** Round trip: a block written from zero-free names scans back to them. */
  lemma ScanJoinNames(names: seq<seq<byte>>)
    requires AllZeroFree(names)
    ensures Scan(JoinNames(names), 0) == Ok(Layout(names, 0))
  {
    ScanJoin(JoinNames(names), 0, names);
  }

  /** Offsets of a layout strictly increase, and each next offset is the
      previous one plus the previous name's length plus one. */
  lemma LayoutOffsets(names: seq<seq<byte>>, start: nat)
    ensures var es := Layout(names, start);
            && (|es| > 0 ==> es[0].offset == start)
            && (forall i :: 0 <= i < |es| - 1 ==> es[i + 1].offset == es[i].offset + |es[i].name| + 1)
            && (forall i, j :: 0 <= i < j < |es| ==> es[i].offset < es[j].offset)
            && (forall i :: 0 <= i < |es| ==> start <= es[i].offset < start + TotalSize(names))
  {
    LayoutSteps(names, start);
    LayoutIncreasing(names, start);
    LayoutRange(names, start);
  }

  lemma {:induction false} LayoutSteps(names: seq<seq<byte>>, start: nat)
    ensures var es := Layout(names, start);
            && (|es| > 0 ==> es[0].offset == start)
            && (forall i :: 0 <= i < |es| - 1 ==> es[i + 1].offset == es[i].offset + |es[i].name| + 1)
    decreases |names|
  {
    if |names| > 0 {
      var es := Layout(names, start);
      var next := start + |names[0]| + 1;
      LayoutSteps(names[1..], next);
      assert es[1..] == Layout(names[1..], next);
      forall i | 0 <= i < |es| - 1
        ensures es[i + 1].offset == es[i].offset + |es[i].name| + 1
      {
        if i > 0 {
          assert es[i] == es[1..][i - 1];
        }
        assert es[i + 1] == es[1..][i];
      }
    }
  }

  lemma {:induction false} LayoutRange(names: seq<seq<byte>>, start: nat)
    ensures var es := Layout(names, start);
            forall i :: 0 <= i < |es| ==> start <= es[i].offset < start + TotalSize(names)
    decreases |names|
  {
    if |names| > 0 {
      var es := Layout(names, start);
      var next := start + |names[0]| + 1;
      LayoutRange(names[1..], next);
      assert es[1..] == Layout(names[1..], next);
      forall i | 0 <= i < |es|
        ensures start <= es[i].offset < start + TotalSize(names)
      {
        if i > 0 {
          assert es[i] == es[1..][i - 1];
        }
      }
    }
  }

  lemma {:induction false} LayoutIncreasing(names: seq<seq<byte>>, start: nat)
    ensures var es := Layout(names, start);
            forall i, j :: 0 <= i < j < |es| ==> es[i].offset < es[j].offset
    decreases |names|
  {
    if |names| > 0 {
      var es := Layout(names, start);
      var next := start + |names[0]| + 1;
      LayoutIncreasing(names[1..], next);
      LayoutRange(names[1..], next);
      assert es[1..] == Layout(names[1..], next);
      forall i, j | 0 <= i < j < |es|
        ensures es[i].offset < es[j].offset
      {
        assert es[j] == es[1..][j - 1];
        if i > 0 {
          assert es[i] == es[1..][i - 1];
        }
      }
    }
  }

  /** The block holds `e`'s name at `e`'s offset, followed by a zero byte. */
  predicate Located(body: seq<byte>, e: Entry) {
    && e.offset + |e.name| < |body|
    && body[e.offset..e.offset + |e.name|] == e.name
    && body[e.offset + |e.name|] == 0
  }

  /** Each entry of a layout sits where the block holds its name, followed by
      the terminating zero byte. */
  lemma {:induction false} LayoutLocates(body: seq<byte>, start: nat, names: seq<seq<byte>>)
    requires start <= |body| && body[start..] == JoinNames(names)
    ensures forall i :: 0 <= i < |names| ==> Located(body, Layout(names, start)[i])
    decreases |names|
  {
    if |names| > 0 {
      var es := Layout(names, start);
      var n := names[0];
      var next := start + |n| + 1;
      JoinedHead(body, start, names);
      assert Located(body, es[0]);
      LayoutLocates(body, next, names[1..]);
      assert es[1..] == Layout(names[1..], next);
      forall i | 1 <= i < |es|
        ensures Located(body, es[i])
      {
        assert es[i] == es[1..][i - 1];
      }
    }
  }

  /** Some entry is stored under offset `o`. */
  predicate HasKey(es: seq<Entry>, o: int) {
    exists i :: 0 <= i < |es| && es[i].offset == o
  }

  /** An offset strictly inside the first name and its terminator is neither
      a key of the layout nor a string start. */
  lemma InsideFirstName(body: seq<byte>, start: nat, names: seq<seq<byte>>, o: int)
    requires |names| > 0 && ZeroFree(names[0])
    requires start <= |body| && body[start..] == JoinNames(names)
    requires start < o <= start + |names[0]|
    ensures forall i :: 0 <= i < |names| ==> Layout(names, start)[i].offset != o
    ensures body[o - 1] != 0
  {
    var n := names[0];
    var es := Layout(names, start);
    JoinedHead(body, start, names);
    assert body[o - 1] == body[start..start + |n|][o - 1 - start];
    LayoutRange(names[1..], start + |n| + 1);
    assert es[1..] == Layout(names[1..], start + |n| + 1);
    forall i | 0 <= i < |names|
      ensures es[i].offset != o
    {
      if i > 0 {
        assert es[i] == es[1..][i - 1];
      }
    }
  }

  /** The offsets of a layout are exactly the string starts of the bytes it
      was laid over, from `start` on. */
  lemma {:induction false} LayoutKeysAreStarts(body: seq<byte>, start: nat, names: seq<seq<byte>>, o: int)
    requires AllZeroFree(names)
    requires start <= |body| && body[start..] == JoinNames(names)
    requires start <= o
    ensures HasKey(Layout(names, start), o) <==> o < |body| && (o == start || body[o - 1] == 0)
    decreases |names|
  {
    var es := Layout(names, start);
    if |names| == 0 {
      assert body[start..] == [];
    } else {
      var next := start + |names[0]| + 1;
      JoinedHead(body, start, names);
      ZeroFreeTail(names);
      assert es[0].offset == start;
      if o == start {
        assert HasKey(es, o);
      } else if o < next {
        InsideFirstName(body, start, names, o);
      } else {
        LayoutKeysAreStarts(body, next, names[1..], o);
        assert es[1..] == Layout(names[1..], next);
        KeyInTail(es, o);
      }
    }
  }

  /** An offset the first entry does not have is a key exactly when it is a
      key of the rest. */
  lemma KeyInTail(es: seq<Entry>, o: int)
    requires |es| > 0 && es[0].offset != o
    ensures HasKey(es, o) <==> HasKey(es[1..], o)
  {
    if exists i :: 0 <= i < |es| && es[i].offset == o {
      var i :| 0 <= i < |es| && es[i].offset == o;
      assert es[1..][i - 1].offset == o;
    }
    if exists i :: 0 <= i < |es[1..]| && es[1..][i].offset == o {
      var i :| 0 <= i < |es[1..]| && es[1..][i].offset == o;
      assert es[i + 1].offset == o;
    }
  }

  /** After a successful scan, an offset is a key exactly when a string of the
      body starts there, and the entry found under it is that string. */
  lemma LookupAfterScan(body: seq<byte>, o: int)
    requires Scan(body, 0).Ok?
    ensures Find(Scan(body, 0).value, o).Some? <==> IsStringStart(body, o)
    ensures Find(Scan(body, 0).value, o).Some? ==>
              var v := Find(Scan(body, 0).value, o).value;
              ZeroFree(v) && Located(body, Entry(o, v))
  {
    var es := Scan(body, 0).value;
    var names := Names(es);
    assert es == Layout(names, 0) && AllZeroFree(names) && body[0..] == JoinNames(names) by {
      ScanLayout(body, 0);
      assert body[0..] == body;
    }
    assert HasKey(es, o) <==> IsStringStart(body, o) by {
      if 0 <= o {
        LayoutKeysAreStarts(body, 0, names, o);
      }
    }
    var r := Find(es, o);
    if r.Some? {
      var i :| 0 <= i < |es| && es[i].offset == o && es[i].name == r.value;
      assert Located(body, es[i]) by {
        LayoutLocates(body, 0, names);
      }
      assert ZeroFree(names[i]);
      assert es[i] == Entry(o, r.value);
    }
  }

  /** Keys in strictly increasing order, hence never repeated. */
  predicate IncreasingOffsets(es: seq<Entry>) {
    forall i, j :: 0 <= i < j < |es| ==> es[i].offset < es[j].offset
  }

  predicate DistinctOffsets(es: seq<Entry>) {
    forall i, j :: 0 <= i < j < |es| ==> es[i].offset != es[j].offset
  }

  /** The keys a scan produces start at 0, strictly increase by the previous
      name's length plus one, and there is one per zero byte of the body. */
  lemma ScanOffsets(body: seq<byte>)
    requires Scan(body, 0).Ok?
    ensures var es := Scan(body, 0).value;
            && IncreasingOffsets(es)
            && DistinctOffsets(es)
            && (|body| > 0 ==> |es| > 0 && es[0].offset == 0)
            && (forall i :: 0 <= i < |es| - 1 ==> es[i + 1].offset == es[i].offset + |es[i].name| + 1)
            && |es| == CountZeros(body)
  {
    var es := Scan(body, 0).value;
    ScanLayout(body, 0);
    LayoutOffsets(Names(es), 0);
    EntryCountIsZeroCount(Names(es));
    assert body[0..] == body;
    if |body| > 0 {
      assert |es| > 0;
    }
  }
}
