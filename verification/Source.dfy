/** The io.Reader contract: a finite stream handed out in arbitrary chunks, then an error. */
module Source {
  import opened Bytes

  datatype Error =
    | EOF
    | Failure(id: nat) // an error of its own
    | ErrNoProgress
    | ErrBufferFull
    | ErrNegativeCount
    | ErrInvalidUnreadByte
    | ErrTooLong
    | ErrNegativeAdvance
    | ErrAdvanceTooFar
    | ErrFinalToken

  /** The bytes a reader delivers before its first error, and that error. */
  class ByteSource {
    var rest: bytes
    const fin: Error

    ghost predicate Valid()
      reads this
    {
      fin.EOF? || fin.Failure?
    }

    constructor (stream: bytes, fin: Error)
      requires fin.EOF? || fin.Failure?
      ensures Valid() && rest == stream && this.fin == fin
    {
      rest := stream;
      this.fin := fin;
    }

    /**
     Read into p[lo..hi]: any number of bytes, none included; the error may come with
     the last bytes or after them; the whole of p[lo..hi] may be used as scratch space.
     */
    method Read(p: array<byte>, lo: nat, hi: nat) returns (n: nat, err: Option<Error>)
      requires Valid() && lo <= hi <= p.Length
      modifies this`rest, p
      ensures n <= hi - lo && n <= |old(rest)| && rest == old(rest)[n..]
      ensures p[lo..lo + n] == old(rest)[..n]
      ensures p[..lo] == old(p[..lo]) && p[hi..] == old(p[hi..])
      ensures err.Some? ==> err.value == fin && rest == []
    {
      n :| 0 <= n <= hi - lo && n <= |rest|;
      forall i | 0 <= i < n {
        p[lo + i] := rest[i];
      }
      assert p[lo..lo + n] == rest[..n];
      rest := rest[n..];
      err := None;
      if * {
        err := if rest == [] then Some(fin) else None;
      }
    }

    /** io.ReadFull into p[i..i+1]: it reads until it has the byte, or an error and no byte. */
    method ReadFullOne(p: array<byte>, i: nat) returns (err: Option<Error>)
      requires Valid() && i < p.Length
      modifies this`rest, p
      ensures if old(rest) == [] then err == Some(fin) && rest == [] && p[..] == old(p[..])
        else err == None && rest == old(rest)[1..] && p[..] == old(p[..])[i := old(rest)[0]]
    {
      if rest == [] {
        return Some(fin);
      }
      p[i] := rest[0];
      rest := rest[1..];
      return None;
    }
  }
}
