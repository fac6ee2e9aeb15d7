/** The byte buffer both ends work in, and the channel that feeds and drains it. */
module Buffer {
  import opened Seqs
  import opened Words

  /** Bytes at a position of a buffer. */
  function Load(buf: array<Byte>, at: nat, n: nat): nat
    requires at + n <= buf.Length
    reads buf
  {
    Value(buf[at..at + n])
  }

  /** Stores the low n bytes of v, most significant first. */
  method Store(buf: array<Byte>, at: nat, v: nat, n: nat)
    requires at + n <= buf.Length
    modifies buf
    ensures buf[at..at + n] == BigEndian(v, n)
    ensures buf[..at] == old(buf[..at]) && buf[at + n..] == old(buf[at + n..])
  {
    var rest: nat, i: nat := v, n;
    while i > 0
      invariant i <= n
      invariant BigEndian(v, n) == BigEndian(rest, i) + buf[at + i..at + n]
      invariant buf[..at] == old(buf[..at]) && buf[at + n..] == old(buf[at + n..])
    {
      ghost var low := buf[at + i..at + n];
      i := i - 1;
      buf[at + i] := rest % 256;
      assert BigEndian(rest, i + 1) == BigEndian(rest / 256, i) + [rest % 256];
      assert buf[at + i..at + n] == [rest % 256] + low;
      ConcatAssoc(BigEndian(rest / 256, i), [rest % 256], low);
      rest := rest / 256;
    }
  }

  /** Clears n bytes. */
  method Clear(buf: array<Byte>, at: nat, n: nat)
    requires at + n <= buf.Length
    modifies buf
    ensures buf[at..at + n] == seq(n, _ => 0)
    ensures buf[..at] == old(buf[..at]) && buf[at + n..] == old(buf[at + n..])
  {
    for i := 0 to n
      invariant buf[at..at + i] == seq(i, _ => 0)
      invariant buf[..at] == old(buf[..at]) && buf[at + n..] == old(buf[at + n..])
    {
      buf[at + i] := 0;
      assert buf[at..at + i + 1] == buf[at..at + i] + [0];
    }
  }

  /** Moves n bytes down, like memmove towards a lower address. */
  method MoveDown(buf: array<Byte>, to: nat, from: nat, n: nat)
    requires to <= from && from + n <= buf.Length
    modifies buf
    ensures buf[to..to + n] == old(buf[from..from + n])
    ensures buf[..to] == old(buf[..to])
  {
    for i := 0 to n
      invariant buf[to..to + i] == old(buf[from..from + n])[..i]
      invariant buf[from + i..from + n] == old(buf[from..from + n])[i..]
      invariant buf[..to] == old(buf[..to])
    {
      assert buf[from + i] == buf[from + i..from + n][0];
      buf[to + i] := buf[from + i];
      assert buf[to..to + i + 1] == buf[to..to + i] + [buf[to + i]];
    }
  }

  function Flat(chunks: seq<seq<Byte>>): seq<Byte> {
    if chunks == [] then [] else chunks[0] + Flat(chunks[1..])
  }

  lemma {:induction false} FlatConcat(a: seq<seq<Byte>>, b: seq<seq<Byte>>)
    ensures Flat(a + b) == Flat(a) + Flat(b)
  {
    if a == [] {
      assert a + b == b;
    } else {
      assert (a + b)[1..] == a[1..] + b;
      FlatConcat(a[1..], b);
      ConcatAssoc(a[0], Flat(a[1..]), Flat(b));
    }
  }

  lemma FlatOne(s: seq<Byte>)
    ensures Flat([s]) == s
  {
    assert [s][1..] == [];
  }

  /** One link of a transport: what will arrive on it, cut as the network cuts it, and what has been sent. */
  class Channel {
    var chunks: seq<seq<Byte>>
    var sent: seq<seq<Byte>>

    /** recv never delivers an empty chunk; it reports the end of the link instead. */
    predicate Valid()
      reads this`chunks
    {
      forall i :: 0 <= i < |chunks| ==> chunks[i] != []
    }

    /** Everything still to arrive. */
    function Pending(): seq<Byte>
      reads this`chunks
    {
      Flat(chunks)
    }

    constructor (chunks: seq<seq<Byte>>)
      requires forall i :: 0 <= i < |chunks| ==> chunks[i] != []
      ensures Valid() && this.chunks == chunks && sent == []
    {
      this.chunks := chunks;
      sent := [];
    }

    /** Reads at most the rest of the buffer from the next chunk; 0 means the link has closed. */
    method Recv(buf: array<Byte>, at: nat) returns (n: nat)
      requires Valid() && at < buf.Length
      modifies this`chunks, buf
      ensures Valid() && at + n <= buf.Length
      ensures n == 0 <==> old(Pending()) == []
      ensures old(Pending()) == buf[at..at + n] + Pending()
      ensures old(chunks) != [] ==> n == if |old(chunks)[0]| <= buf.Length - at then |old(chunks)[0]| else buf.Length - at
      ensures buf[..at] == old(buf[..at])
    {
      n := 0;
      if chunks == [] {
        return;
      }
      var chunk := chunks[0];
      n := if |chunk| <= buf.Length - at then |chunk| else buf.Length - at;
      for i := 0 to n
        invariant buf[at..at + i] == chunk[..i]
        invariant buf[..at] == old(buf[..at])
        invariant chunks == old(chunks)
      {
        buf[at + i] := chunk[i];
        assert buf[at..at + i + 1] == buf[at..at + i] + [chunk[i]];
      }
      assert chunk == chunk[..n] + chunk[n..];
      ConcatAssoc(chunk[..n], chunk[n..], Flat(chunks[1..]));
      if n == |chunk| {
        chunks := chunks[1..];
        assert chunk[n..] + Flat(chunks) == Flat(chunks);
      } else {
        ghost var tail := chunks[1..];
        chunks := [chunk[n..]] + chunks[1..];
        assert chunks[1..] == tail;
      }
    }

    method Send(data: seq<Byte>)
      modifies this`sent
      ensures sent == old(sent) + [data]
    {
      sent := sent + [data];
    }
  }
}
