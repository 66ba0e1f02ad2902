/** The byte source behind the reader, in the shape of a bytes.Reader: the
    bytes it will deliver, how many it has delivered, and whether it also
    implements io.Seeker. */
module ByteSource {
  import opened Bits

  datatype Source =
    | NoSource
    | Source(data: seq<byte>, pos: nat, seekable: bool)

  function Min(a: nat, b: nat): nat
  {
    if a < b then a else b
  }

  /** Bytes the source can still deliver. */
  function Remaining(s: Source): nat
    requires s.Source?
  {
    if s.pos < |s.data| then |s.data| - s.pos else 0
  }

  /** Read into a slice of length k: the source delivers the next
      min(k, remaining) bytes and moves past them. */
  function Read(s: Source, k: nat): (r: (Source, seq<byte>))
    requires s.Source?
    ensures r.0.Source? && r.0.data == s.data && r.0.seekable == s.seekable
    ensures |r.1| == Min(k, Remaining(s)) && r.0.pos == s.pos + |r.1|
    ensures forall i :: 0 <= i < |r.1| ==> s.pos + i < |s.data| && r.1[i] == s.data[s.pos + i]
    ensures |r.1| < k ==> r.0.pos >= |s.data|
  {
    var n := Min(k, Remaining(s));
    (s.(pos := s.pos + n), if n == 0 then [] else s.data[s.pos..s.pos + n])
  }

  /** Seek(d, io.SeekCurrent): the new position is pos + d, except that a
      negative target is refused and leaves the position unchanged. */
  function Seek(s: Source, d: int): (r: Source)
    requires s.Source?
    ensures r.Source? && r.data == s.data && r.seekable == s.seekable
    ensures s.pos + d >= 0 ==> r.pos == s.pos + d
    ensures s.pos + d < 0 ==> r == s
  {
    if s.pos + d < 0 then s else s.(pos := s.pos + d)
  }

  /** A Read of an io.Reader that delivers m of the k bytes asked for: the
      next m bytes, with m at most what is asked and what remains. */
  function ReadSome(s: Source, k: nat, m: nat): (r: (Source, seq<byte>))
    requires s.Source? && m <= Min(k, Remaining(s))
    ensures r.0 == s.(pos := s.pos + m) && |r.1| == m
    ensures forall i :: 0 <= i < m ==> s.pos + i < |s.data| && r.1[i] == s.data[s.pos + i]
  {
    (s.(pos := s.pos + m), if m == 0 then [] else s.data[s.pos..s.pos + m])
  }

  /** Reading until k bytes have come or the stream has ended, whatever
      number of bytes (at least one) each Read call of the source delivers:
      call i delivers sizes(i) bytes, clipped to what is asked and what
      remains. However the source splits its deliveries, the result is the
      single full read Read(s, k). */
  method ReadFull(s: Source, k: nat, sizes: nat -> nat) returns (s': Source, got: seq<byte>)
    requires s.Source?
    ensures (s', got) == Read(s, k)
  {
    s', got := s, [];
    var i := 0;
    while |got| < k && s'.pos < |s.data|
      invariant |got| <= Min(k, Remaining(s)) && s' == s.(pos := s.pos + |got|)
      invariant BytesFrom(s, s.pos, got)
      decreases k - |got|
    {
      var m := if sizes(i) == 0 then 1 else Min(sizes(i), Min(k - |got|, Remaining(s')));
      var rd := ReadSome(s', k - |got|, m);
      Delivered(s, s.pos, got, rd.1);
      s', got, i := rd.0, got + rd.1, i + 1;
    }
    FullRead(s, k, got);
  }

  /** bs holds the bytes of s.data from index `from` on (the empty sequence
      holds them from anywhere, past the end included). */
  ghost predicate BytesFrom(s: Source, from: int, bs: seq<byte>)
    requires s.Source?
  {
    (|bs| == 0 || (0 <= from && from + |bs| <= |s.data|)) &&
    forall j :: 0 <= j < |bs| ==> bs[j] == s.data[from + j]
  }

  /** The next bytes followed by the bytes after them are the next bytes. */
  lemma Delivered(s: Source, from: nat, got: seq<byte>, part: seq<byte>)
    requires s.Source? && BytesFrom(s, from, got) && BytesFrom(s, from + |got|, part)
    ensures BytesFrom(s, from, got + part)
  {
    var all := got + part;
    forall j | 0 <= j < |all|
      ensures all[j] == s.data[from + j]
    {
      if j < |got| {
        assert all[j] == got[j];
      } else {
        assert all[j] == part[j - |got|];
      }
    }
  }

  /** The next min(k, remaining) bytes, and the source moved past them, are
      what Read(s, k) gives. */
  lemma FullRead(s: Source, k: nat, got: seq<byte>)
    requires s.Source? && |got| == Min(k, Remaining(s))
    requires BytesFrom(s, s.pos, got)
    ensures (s.(pos := s.pos + |got|), got) == Read(s, k)
  {
    if |got| > 0 {
      assert got == s.data[s.pos..s.pos + |got|];
    }
  }
}
