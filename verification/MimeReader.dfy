/**
 The buffered input of the multipart parser: a byte source that hands out its
 stream in arbitrary pieces, and the reader with its rewindable marker.
 */
module MimeReader {

  /* One byte of the buffer is never used, so a marked window holds 1053 bytes. */
  const READER_BUFFER_SIZE := 1054
  const WINDOW := READER_BUFFER_SIZE - 1

  datatype ReadStatus = ReadOk | ReadEof | ReadError

  function Min(a: nat, b: nat): nat {
    if a <= b then a else b
  }

  /**
   The read callback: an oracle for sockets and files. `rest` is the stream still
   to be delivered and `schedule` says how much each of the next calls hands out
   (zero is an empty read); afterwards every call hands out as much as fits.
   When both are used up the source reports `ending` for ever.
   */
  class Source {
    var rest: string
    var schedule: seq<nat>
    const ending: ReadStatus

    constructor (stream: string, schedule: seq<nat>, ending: ReadStatus)
      requires ending != ReadOk
      ensures rest == stream && this.schedule == schedule && this.ending == ending
    {
      rest, this.schedule, this.ending := stream, schedule, ending;
    }

    /** How many more successful calls with a positive length are possible at most. */
    ghost function Left(): nat
      reads this
    {
      |rest| + |schedule|
    }

    method Fetch(dest: array<char>, off: nat, len: nat) returns (status: ReadStatus, got: nat)
      requires off + len <= dest.Length
      modifies this, dest
      ensures got <= len && got <= |old(rest)|
      ensures rest == old(rest)[got..]
      ensures forall j :: off <= j < off + got ==> dest[j] == old(rest)[j - off]
      ensures forall j :: 0 <= j < dest.Length && !(off <= j < off + got) ==> dest[j] == old(dest[j])
      ensures status == ReadOk || status == ending
      ensures ending != ReadOk ==> (status == ReadOk <==> old(Left()) > 0)
      ensures ending != ReadOk && status == ReadOk && len > 0 ==> Left() < old(Left())
      ensures status == ReadOk || got == 0
    {
      if schedule != [] {
        status, got := ReadOk, Min(schedule[0], Min(len, |rest|));
        schedule := schedule[1..];
      } else if rest != "" {
        status, got := ReadOk, Min(len, |rest|);
      } else {
        return ending, 0;
      }
      forall k | 0 <= k < got {
        dest[off + k] := rest[k];
      }
      rest := rest[got..];
    }
  }

  /**
   The cursor that the reader refines: position `pos` in the whole stream, and a
   window of `WINDOW` bytes from the marker when one is set.
   */
  ghost function CursorStatus(total: nat, ending: ReadStatus, pos: nat, mark: int, n: nat): ReadStatus {
    if pos + n <= total && (mark >= 0 ==> pos + n <= mark + WINDOW) then ReadOk
    else if mark >= 0 && mark + WINDOW <= total then ReadError
    else ending
  }

  class Reader {
    var size: int
    var marker: int
    var current: int
    const buffer: array<char>
    const source: Source
    ghost const stream: string

    constructor (source: Source)
      requires source.ending != ReadOk
      ensures Valid() && fresh(buffer)
      ensures this.source == source && stream == source.rest
      ensures Pos() == 0 && Mark() == -1
    {
      size, marker, current := 0, -1, 0;
      buffer := new char[READER_BUFFER_SIZE];
      this.source, stream := source, source.rest;
    }

    /** Index from which the buffer still matters. */
    ghost function Low(): int
      reads this
    {
      if marker > -1 then marker else current
    }

    ghost predicate Valid()
      reads this, buffer, source
    {
      && buffer.Length == READER_BUFFER_SIZE
      && source.ending != ReadOk
      && -1 <= marker
      && 0 <= Low() <= current <= size <= WINDOW
      && size - Low() + |source.rest| <= |stream|
      && source.rest == stream[Fetched()..]
      && (forall j :: Low() <= j < size ==> buffer[j] == stream[Fetched() - size + j])
    }

    /** How much of the stream the source has delivered. */
    ghost function Fetched(): int
      reads this, source
    {
      |stream| - |source.rest|
    }

    /** The cursor: position of the next byte in the stream. */
    ghost function Pos(): int
      reads this, source
    {
      Fetched() - (size - current)
    }

    /** Stream position of the marker, -1 when none is set. */
    ghost function Mark(): int
      reads this, source
    {
      if marker > -1 then Pos() - (current - marker) else -1
    }

    /** Moves the marked bytes to the front of the buffer, or drops everything if there is no marker. */
    method Shift()
      requires Valid() && size == current
      modifies this`current, this`marker, buffer
      ensures 0 <= current == old(size) - old(Low()) && marker == (if old(marker) > -1 then 0 else -1)
      ensures forall j :: 0 <= j < current ==> buffer[j] == stream[Fetched() - current + j]
    {
      if marker > -1 {
        if marker != 0 {
          forall k | 0 <= k < size - marker {
            buffer[k] := buffer[marker + k];
          }
          current := size - marker;
        }
        marker := 0;
      } else {
        current := 0;
      }
    }

    /** Refill: makes room, then asks the source for as much as fits. */
    method Refill() returns (status: ReadStatus)
      requires Valid() && size == current
      modifies this, buffer, source
      ensures status == ReadOk ==> Valid() && Pos() == old(Pos()) && Mark() == old(Mark())
      ensures status == ReadOk ==> source.Left() < old(source.Left())
      ensures status == if old(Mark()) >= 0 && old(Pos()) == old(Mark()) + WINDOW then ReadError
                        else if old(source.Left()) > 0 then ReadOk else source.ending
    {
      if marker == 0 && current == READER_BUFFER_SIZE - 1 {
        return ReadError;
      }
      Shift();
      var len: nat;
      status, len := source.Fetch(buffer, current, READER_BUFFER_SIZE - current - 1);
      if status == ReadOk {
        size := len + current;
      }
    }

    /** The memcpy from the buffer when at least `n` bytes are there. */
    method Take(dest: array<char>, off: nat, n: nat)
      requires Valid() && n <= size - current && off + n <= dest.Length && dest != buffer
      modifies this`current, dest
      ensures Valid() && Pos() == old(Pos()) + n && Mark() == old(Mark())
      ensures current == old(current) + n
      ensures forall j :: off <= j < off + n ==> dest[j] == stream[old(Pos()) + j - off]
      ensures forall j :: 0 <= j < dest.Length && !(off <= j < off + n) ==> dest[j] == old(dest[j])
    {
      forall k | 0 <= k < n {
        dest[off + k] := buffer[current + k];
      }
      current := current + n;
    }

    /**
     Copies the next `n` bytes to `dest[off..]`, refilling as often as needed. Whatever
     pieces the source delivers, this is the cursor read of CursorStatus; after a
     failure the reader is not usable any more.
     */
    method Read(dest: array<char>, off: nat, n: nat) returns (status: ReadStatus)
      requires Valid() && 0 < n && off + n <= dest.Length && dest != buffer
      modifies this, buffer, source, dest
      ensures status == CursorStatus(|stream|, source.ending, old(Pos()), old(Mark()), n)
      ensures status == ReadOk ==> Valid() && Pos() == old(Pos()) + n && Mark() == old(Mark())
      ensures status == ReadOk ==>
                forall j :: off <= j < off + n ==> dest[j] == stream[old(Pos()) + j - off]
      ensures forall j :: 0 <= j < dest.Length && !(off <= j < off + n) ==> dest[j] == old(dest[j])
      decreases source.Left(), size - current
    {
      if size == current {
        status := Refill();
        if status != ReadOk {
          return;
        }
      }
      if n <= size - current {
        Take(dest, off, n);
        return ReadOk;
      }
      var rest := size - current;
      Take(dest, off, rest);
      status := Read(dest, off + rest, n - rest);
    }

    method SetMarker()
      requires Valid()
      modifies this
      ensures Valid() && Pos() == old(Pos()) && Mark() == Pos()
    {
      marker := current;
    }

    /** Goes back to the marker. */
    method JumpMarker()
      requires Valid() && Mark() >= 0
      modifies this
      ensures Valid() && Pos() == old(Mark()) && Mark() == old(Mark())
    {
      current := marker;
    }
  }
}
