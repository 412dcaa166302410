/** Bodies that are arrays of fixed-width records. The chunk readers use three
    different loops over such a body; each is modelled here over the bytes
    still unread, and the lemmas compare them:
    - FloorRecords: compute `length / size` first and read that many records,
      so a partial tail is silently dropped (MOVB, MOVV);
    - ExactRecords: read records while bytes remain, a partial final record
      making the read throw (MOBR, MOTV);
    - CeilRecords: read `size` bytes while bytes remain with a reader that
      returns whatever is left, so the final slice may be short (MOPY). */
module Stride {
  import opened Binary

  /** The records written one after another. */
  function Flatten(rs: seq<seq<byte>>): seq<byte>
  {
    if |rs| == 0 then [] else rs[0] + Flatten(rs[1..])
  }

  predicate AllWidth(rs: seq<seq<byte>>, w: nat) {
    forall i :: 0 <= i < |rs| ==> |rs[i]| == w
  }

  function FloorRecords(body: seq<byte>, w: nat): seq<seq<byte>>
    requires w > 0
    decreases |body|
  {
    if |body| < w then [] else [body[..w]] + FloorRecords(body[w..], w)
  }

  function ExactRecords(body: seq<byte>, w: nat): Result<seq<seq<byte>>>
    requires w > 0
    decreases |body|
  {
    if |body| == 0 then Ok([])
    else if |body| < w then Err(TruncatedInput)
    else
      match ExactRecords(body[w..], w)
      case Err(e) => Err(e)
      case Ok(rest) => Ok([body[..w]] + rest)
  }

  function CeilRecords(body: seq<byte>, w: nat): seq<seq<byte>>
    requires w > 0
    decreases |body|
  {
    if |body| == 0 then []
    else if |body| <= w then [body]
    else [body[..w]] + CeilRecords(body[w..], w)
  }

  /** Taking one record off the front lowers the quotient by one and keeps
      the remainder. */
  lemma DivModStep(n: int, w: int)
    requires n >= w > 0
    ensures (n - w) / w == n / w - 1
    ensures (n - w) % w == n % w
  {
    var q, r := n / w, n % w;
    assert n == q * w + r;
    assert n - w == (q - 1) * w + r;
    DivModUnique(n - w, w, q - 1, r);
  }

  lemma DivModUnique(n: int, w: int, q: int, r: int)
    requires w > 0 && 0 <= r < w && n == q * w + r
    ensures n / w == q && n % w == r
  {
    var q0, r0 := n / w, n % w;
    assert n == q0 * w + r0;
    assert (q - q0) * w == r0 - r;
    SmallMultipleIsZero(q - q0, w);
  }

  lemma SmallMultipleIsZero(a: int, w: int)
    requires w > 0 && -w < a * w < w
    ensures a == 0
  {
  }

  lemma {:induction false} FlattenAppend(a: seq<seq<byte>>, b: seq<seq<byte>>)
    ensures Flatten(a + b) == Flatten(a) + Flatten(b)
    decreases |a|
  {
    if |a| == 0 {
      assert a + b == b;
    } else {
      assert (a + b)[0] == a[0];
      assert (a + b)[1..] == a[1..] + b;
      FlattenAppend(a[1..], b);
    }
  }

  lemma {:induction false} FlattenLength(rs: seq<seq<byte>>, w: nat)
    requires AllWidth(rs, w)
    ensures |Flatten(rs)| == |rs| * w
    decreases |rs|
  {
    if |rs| > 0 {
      FlattenLength(rs[1..], w);
    }
  }

  /** Record i of a concatenation of same-width records sits at bytes
      [i*size, (i+1)*size). */
  lemma FlattenSlices(rs: seq<seq<byte>>, w: nat)
    requires w > 0 && AllWidth(rs, w)
    ensures |Flatten(rs)| == |rs| * w
    ensures forall i :: 0 <= i < |rs| ==>
              0 <= i * w && i * w + w <= |Flatten(rs)| && Flatten(rs)[i * w..i * w + w] == rs[i]
  {
    FlattenLength(rs, w);
    RecordsRoundTrip(rs, w);
    FloorShape(Flatten(rs), w);
  }

  /** The floor loop reads `length / size` records, record i being bytes
      [i*size, (i+1)*size), and what it reads is the body minus its last
      `length % size` bytes. */
  lemma FloorShape(body: seq<byte>, w: nat)
    requires w > 0
    ensures var rs := FloorRecords(body, w);
            && |rs| == |body| / w
            && (forall i :: 0 <= i < |rs| ==> 0 <= i * w && i * w + w <= |body| && rs[i] == body[i * w..i * w + w])
            && Flatten(rs) == body[..|body| - |body| % w]
  {
    FloorCount(body, w);
    FloorSlices(body, w);
    FloorFlatten(body, w);
  }

  lemma {:induction false} FloorCount(body: seq<byte>, w: nat)
    requires w > 0
    ensures |FloorRecords(body, w)| == |body| / w
    decreases |body|
  {
    if |body| < w {
      DivModUnique(|body|, w, 0, |body|);
    } else {
      DivModStep(|body|, w);
      FloorCount(body[w..], w);
    }
  }

  lemma {:induction false} FloorSlices(body: seq<byte>, w: nat)
    requires w > 0
    ensures var rs := FloorRecords(body, w);
            forall i :: 0 <= i < |rs| ==> 0 <= i * w && i * w + w <= |body| && rs[i] == body[i * w..i * w + w]
    decreases |body|
  {
    if |body| >= w {
      var rs := FloorRecords(body, w);
      FloorSlices(body[w..], w);
      var tail := FloorRecords(body[w..], w);
      assert rs == [body[..w]] + tail;
      forall i | 0 <= i < |rs|
        ensures 0 <= i * w && i * w + w <= |body| && rs[i] == body[i * w..i * w + w]
      {
        if i > 0 {
          assert rs[i] == tail[i - 1];
          SliceShift(body, w, i);
        }
      }
    }
  }

  lemma {:induction false} FloorFlatten(body: seq<byte>, w: nat)
    requires w > 0
    ensures Flatten(FloorRecords(body, w)) == body[..|body| - |body| % w]
    decreases |body|
  {
    if |body| < w {
      DivModUnique(|body|, w, 0, |body|);
    } else {
      var rest := body[w..];
      DivModStep(|body|, w);
      FloorFlatten(rest, w);
      assert FloorRecords(body, w) == [body[..w]] + FloorRecords(rest, w);
      assert body[..|body| - |body| % w] == body[..w] + rest[..|rest| - |rest| % w];
    }
  }

  /** Record i - 1 of the body after its first record is record i of the
      body. */
  lemma SliceShift(body: seq<byte>, w: nat, i: nat)
    requires 0 < w <= |body| && i > 0
    requires 0 <= (i - 1) * w && (i - 1) * w + w <= |body| - w
    ensures 0 <= i * w && i * w + w <= |body|
    ensures body[w..][(i - 1) * w..(i - 1) * w + w] == body[i * w..i * w + w]
  {
    assert (i - 1) * w + w == i * w;
  }

  /** The exhausting loop succeeds exactly on bodies that are a whole number
      of records, and then reads the same records as the floor loop. */
  lemma {:induction false} ExactShape(body: seq<byte>, w: nat)
    requires w > 0
    ensures ExactRecords(body, w).Ok? <==> |body| % w == 0
    ensures ExactRecords(body, w).Ok? ==> ExactRecords(body, w).value == FloorRecords(body, w)
    decreases |body|
  {
    if |body| == 0 {
    } else if |body| < w {
      DivModUnique(|body|, w, 0, |body|);
    } else {
      var rest := body[w..];
      assert |rest| == |body| - w;
      DivModStep(|body|, w);
      ExactShape(rest, w);
      if ExactRecords(rest, w).Ok? {
        assert ExactRecords(body, w) == Ok([body[..w]] + ExactRecords(rest, w).value);
        assert FloorRecords(body, w) == [body[..w]] + FloorRecords(rest, w);
      } else {
        assert ExactRecords(body, w).Err?;
      }
    }
  }

  /** The reader that returns what remains takes ceil(length / size) slices
      that cover the whole body; all but the last are full, and the last is
      short exactly when size does not divide the length. */
  lemma CeilShape(body: seq<byte>, w: nat)
    requires w > 0
    ensures var rs := CeilRecords(body, w);
            && |rs| == (|body| + w - 1) / w
            && Flatten(rs) == body
            && (forall i :: 0 <= i < |rs| - 1 ==> |rs[i]| == w)
            && (|rs| > 0 ==> 0 < |rs[|rs| - 1]| <= w)
            && (|rs| > 0 && |body| % w != 0 ==> |rs[|rs| - 1]| == |body| % w)
  {
    CeilCount(body, w);
    CeilFlatten(body, w);
    CeilWidths(body, w);
  }

  lemma {:induction false} CeilCount(body: seq<byte>, w: nat)
    requires w > 0
    ensures |CeilRecords(body, w)| == (|body| + w - 1) / w
    decreases |body|
  {
    if |body| == 0 {
      DivModUnique(w - 1, w, 0, w - 1);
    } else if |body| <= w {
      DivModUnique(|body| + w - 1, w, 1, |body| - 1);
    } else {
      DivModStep(|body| + w - 1, w);
      CeilCount(body[w..], w);
    }
  }

  lemma {:induction false} CeilFlatten(body: seq<byte>, w: nat)
    requires w > 0
    ensures Flatten(CeilRecords(body, w)) == body
    decreases |body|
  {
    if |body| > w {
      CeilFlatten(body[w..], w);
      assert CeilRecords(body, w) == [body[..w]] + CeilRecords(body[w..], w);
      assert body == body[..w] + body[w..];
    }
  }

  /** All slices but the last are full; the last is non-empty, and it is
      `length % size` wide when size does not divide the length. */
  lemma {:induction false} CeilWidths(body: seq<byte>, w: nat)
    requires w > 0
    ensures var rs := CeilRecords(body, w);
            && (forall i :: 0 <= i < |rs| - 1 ==> |rs[i]| == w)
            && (|rs| > 0 ==> 0 < |rs[|rs| - 1]| <= w)
            && (|rs| > 0 && |body| % w != 0 ==> |rs[|rs| - 1]| == |body| % w)
    decreases |body|
  {
    if |body| > 0 && |body| <= w {
      if |body| < w {
        DivModUnique(|body|, w, 0, |body|);
      } else {
        DivModUnique(|body|, w, 1, 0);
      }
    } else if |body| > w {
      var rs := CeilRecords(body, w);
      var tail := CeilRecords(body[w..], w);
      DivModStep(|body|, w);
      CeilWidths(body[w..], w);
      assert rs == [body[..w]] + tail;
      assert |tail| > 0 by {
        assert body[w..][0] == body[w];
      }
      assert rs[|rs| - 1] == tail[|tail| - 1];
      forall i | 0 <= i < |rs| - 1
        ensures |rs[i]| == w
      {
        if i > 0 {
          assert rs[i] == tail[i - 1];
        }
      }
    }
  }

  /** When size divides the length the three loops read the same records. */
  lemma {:induction false} LoopsAgreeOnWholeRecords(body: seq<byte>, w: nat)
    requires w > 0 && |body| % w == 0
    ensures ExactRecords(body, w) == Ok(FloorRecords(body, w))
    ensures CeilRecords(body, w) == FloorRecords(body, w)
    decreases |body|
  {
    ExactShape(body, w);
    if |body| > 0 {
      if |body| < w {
        DivModUnique(|body|, w, 0, |body|);
      } else {
        DivModStep(|body|, w);
        LoopsAgreeOnWholeRecords(body[w..], w);
        if |body| == w {
          assert body[w..] == [];
          assert body[..w] == body;
        }
      }
    }
  }

  /** Writing records of the right width and reading them back with any of
      the three loops gives the same records. */
  lemma {:induction false} RecordsRoundTrip(rs: seq<seq<byte>>, w: nat)
    requires w > 0 && AllWidth(rs, w)
    ensures FloorRecords(Flatten(rs), w) == rs
    ensures ExactRecords(Flatten(rs), w) == Ok(rs)
    ensures CeilRecords(Flatten(rs), w) == rs
    decreases |rs|
  {
    if |rs| > 0 {
      var body := Flatten(rs);
      FlattenLength(rs[1..], w);
      assert body == rs[0] + Flatten(rs[1..]);
      assert body[..w] == rs[0];
      assert body[w..] == Flatten(rs[1..]);
      assert AllWidth(rs[1..], w) by {
        forall i | 0 <= i < |rs[1..]|
          ensures |rs[1..][i]| == w
        {
          assert rs[1..][i] == rs[i + 1];
        }
      }
      RecordsRoundTrip(rs[1..], w);
      assert [rs[0]] + rs[1..] == rs;
      if |rs| == 1 {
        assert Flatten(rs[1..]) == [];
        assert body == rs[0];
        assert rs == [rs[0]];
        assert CeilRecords(body, w) == [body];
      }
    }
  }
}
