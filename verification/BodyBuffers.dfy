/**
 The body buffer of internal/corazawaf/body_buffer.go: bytes are kept in memory up to a limit and
 then moved to a temporary file, while readers opened at any time keep their position.
 */
module BodyBuffers {
  import opened Options
  import opened ByteStrings

  class BodyBuffer {
    const limit: nat
    const memoryLimit: nat
    const hasFS: bool
    var buffer: Bytes
    var file: Option<Bytes>
    var length: nat
    var readers: seq<BodyBufferReader>

    /** Everything written so far, wherever it is kept. */
    function Contents(): Bytes
      reads this
    {
      if file.Some? then file.value else buffer
    }

    /** Once there is a file it holds everything, and the length is past the memory limit for good. */
    ghost predicate Valid()
      reads this, readers
    {
      && length == |Contents()| <= limit
      && (file.Some? ==> hasFS && buffer == [] && length > memoryLimit)
      && (forall r | r in readers :: r.br == this && r.pos <= length)
    }

    constructor (limit: nat, memoryLimit: nat, hasFS: bool)
      ensures Valid() && Contents() == [] && readers == []
      ensures this.limit == limit && this.memoryLimit == memoryLimit && this.hasFS == hasFS
    {
      this.limit, this.memoryLimit, this.hasFS := limit, memoryLimit, hasFS;
      buffer, file, length, readers := [], None, 0, [];
    }

    /** The write would go past the limit, or past what can be kept without a file system. */
    predicate Refuses(data: Bytes)
      reads this
    {
      data != [] && (length + |data| > limit || (length + |data| > memoryLimit && !hasFS))
    }

    /**
     Appends all of `data` or nothing. What any open reader has still to deliver is extended by
     `data`, also when this write moves the contents to a file.
     */
    method Write(data: Bytes) returns (n: nat, failed: bool)
      requires Valid()
      modifies this
      ensures Valid() && readers == old(readers)
      ensures failed == old(Refuses(data))
      ensures n == (if failed then 0 else |data|)
      ensures Contents() == (if failed then old(Contents()) else old(Contents()) + data)
      ensures !failed ==> forall r | r in readers :: r.Remaining() == old(r.Remaining()) + data
    {
      if |data| == 0 {
        assert Contents() + data == Contents();
        return 0, false;
      }
      if length > limit - |data| {
        return 0, true;
      }
      var targetLen := length + |data|;
      if targetLen > memoryLimit {
        if !hasFS {
          return 0, true;
        }
        if file.None? {
          file := Some(buffer);
          buffer := [];
        }
        length := targetLen;
        file := Some(file.value + data);
        return |data|, false;
      }
      length := targetLen;
      buffer := buffer + data;
      return |data|, false;
    }

    /** A new reader starts at the beginning. */
    method Reader() returns (r: BodyBufferReader)
      requires Valid()
      modifies `readers
      ensures Valid() && fresh(r) && readers == old(readers) + [r]
      ensures r.br == this && r.pos == 0 && r.Remaining() == Contents() == old(Contents())
    {
      r := new BodyBufferReader(this);
      readers := readers + [r];
    }

    /** Empties the buffer and closes every reader that was ever opened on it. */
    method Reset()
      requires Valid()
      modifies this, readers
      ensures Valid() && Contents() == [] && file.None? && readers == []
      ensures forall r | r in old(readers) :: r.br == null && r.Remaining() == []
    {
      var open := readers;
      buffer := [];
      length := 0;
      for i := 0 to |open|
        invariant buffer == [] && length == 0 && readers == open && file == old(file)
        invariant forall j | 0 <= j < i :: open[j].br == null
      {
        open[i].Close();
      }
      readers := [];
      file := None;
    }
  }

  class BodyBufferReader {
    var pos: nat
    var br: BodyBuffer?

    constructor (br: BodyBuffer)
      ensures this.br == br && pos == 0
    {
      this.br, pos := br, 0;
    }

    ghost predicate Valid()
      reads this, br, if br == null then [] else br.readers
    {
      br != null ==> br.Valid() && this in br.readers
    }

    /** What this reader has still to deliver; nothing once it is closed. */
    ghost function Remaining(): Bytes
      reads this, br
    {
      if br == null || pos > |br.Contents()| then [] else br.Contents()[pos..]
    }

    /**
     Fills a prefix of `p` with the next bytes. The end of the body is reported when nothing was
     read from memory, or when the file gave less than asked for.
     */
    method Read(p: array<byte>) returns (n: nat, eof: bool)
      requires Valid()
      modifies `pos, p
      ensures Valid() && br == old(br)
      ensures n == (if p.Length <= |old(Remaining())| then p.Length else |old(Remaining())|)
      ensures p[..n] == old(Remaining())[..n] && p[n..] == old(p[n..])
      ensures Remaining() == old(Remaining())[n..]
      ensures br == null ==> n == 0 && eof
      ensures br != null ==> eof == (if br.file.None? then n == 0 else n < p.Length)
    {
      if br == null {
        return 0, true;
      }
      if !br.hasFS || br.file.None? {
        var buf := br.buffer;
        n := p.Length;
        if pos + n > |buf| {
          n := |buf| - pos;
        }
        if n == 0 {
          return 0, true;
        }
        Copy(p, buf[pos..pos + n]);
        pos := pos + n;
        return n, false;
      }
      var data := br.file.value;
      n := if p.Length <= |data| - pos then p.Length else |data| - pos;
      Copy(p, data[pos..pos + n]);
      pos := pos + n;
      eof := n < p.Length;
    }

    /** io.Copy and io.ReadAll: reading until the end delivers exactly what remained. */
    method ReadAll(size: nat) returns (all: Bytes)
      requires Valid() && size > 0
      modifies `pos
      ensures Valid() && br == old(br)
      ensures all == old(Remaining()) && Remaining() == []
    {
      hide BodyBufferReader.Valid, BodyBuffer.Valid, BodyBufferReader.Remaining;
      all := [];
      var eof := false;
      var p := new byte[size](_ => 0);
      ghost var content := Remaining();
      while !eof
        invariant Valid() && br == old(br)
        invariant all + Remaining() == content
        invariant eof ==> Remaining() == []
        decreases |Remaining()|, !eof
        modifies `pos, p
      {
        ghost var rest := Remaining();
        var n;
        n, eof := Read(p);
        all := all + p[..n];
        assert rest == rest[..n] + rest[n..];
      }
    }

    method Close()
      modifies this
      ensures br == null && pos == 0
    {
      br, pos := null, 0;
    }
  }

  /** Go's copy into the front of a slice. */
  method Copy(p: array<byte>, data: Bytes)
    requires |data| <= p.Length
    modifies p
    ensures p[..|data|] == data && p[|data|..] == old(p[|data|..])
  {
    for i := 0 to |data|
      invariant p[..i] == data[..i] && p[|data|..] == old(p[|data|..])
    {
      p[i] := data[i];
    }
  }
}
