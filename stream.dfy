/**
 * The part of a C stdio stream that compute_xor uses: a file opened for
 * binary reading, `fread` of one element, and the end-of-file and error
 * indicators tested by `feof` and `ferror` (ISO C 7.21.8.1, 7.21.10.2,
 * 7.21.10.3).
 *
 * The operating system is replaced by a value: the file's bytes and, if a
 * read error is to happen, the index of the `fread` call that fails.
 */
module Stream {
  import opened Wrappers
  import opened CInt

  /** A file as `fopen` finds it. */
  datatype File = File(contents: seq<U8>, failingRead: Option<nat>)

  /** The state of a stream: the file position, the end-of-file and error
      indicators, and the number of `fread` calls that tried to read. */
  datatype State = State(pos: nat, eof: bool, error: bool, calls: nat)

  /** `fread(buf, |buf|, 1, stream)` on file f takes the stream from s to s',
      the buffer from buf to buf' and returns n, the number of complete
      elements read:
      - an element of size 0 reads nothing, returns 0 and changes nothing;
      - the failing call sets the error indicator and returns 0;
      - once the end-of-file indicator is set, nothing more is read;
      - with a whole element left, it is copied and 1 is returned;
      - otherwise the bytes that are left are copied to the start of the
        buffer, the end-of-file indicator is set and 0 is returned. */
  ghost predicate Fread(f: File, s: State, s': State, buf: seq<U8>, buf': seq<U8>, n: nat)
    ensures Fread(f, s, s', buf, buf', n) ==>
      |buf'| == |buf| && n <= 1 && s.pos <= s'.pos
      && (s.eof ==> s'.eof) && (s.error ==> s'.error)
    ensures Fread(f, s, s', buf, buf', n) && n == 1 ==>
      s'.pos == s.pos + |buf| <= |f.contents| && buf' == f.contents[s.pos .. s'.pos]
  {
    var c := f.contents;
    if |buf| == 0 then n == 0 && s' == s && buf' == buf
    else if f.failingRead == Some(s.calls) then
      n == 0 && s' == s.(error := true, calls := s.calls + 1) && buf' == buf
    else if s.eof then
      n == 0 && s' == s.(calls := s.calls + 1) && buf' == buf
    else if s.pos + |buf| <= |c| then
      n == 1 && s' == s.(pos := s.pos + |buf|, calls := s.calls + 1)
      && buf' == c[s.pos .. s.pos + |buf|]
    else
      s.pos <= |c| && n == 0 && s' == s.(pos := |c|, eof := true, calls := s.calls + 1)
      && buf' == c[s.pos..] + buf[|c| - s.pos..]
  }

  /** A `FILE *` opened with mode "rb". */
  class FileStream {
    const contents: seq<U8>
    const failingRead: Option<nat>
    var pos: nat
    var eof: bool
    var error: bool
    var calls: nat

    ghost predicate Valid()
      reads this
    {
      pos <= |contents|
    }

    /** The file this stream reads. */
    function Source(): File
      reads this
    {
      File(contents, failingRead)
    }

    function Current(): State
      reads this
    {
      State(pos, eof, error, calls)
    }

    /** A successful `fopen`: positioned at the start, both indicators clear. */
    constructor Open(f: File)
      ensures Source() == f && Current() == State(0, false, false, 0)
      ensures Valid()
    {
      contents, failingRead := f.contents, f.failingRead;
      pos, eof, error, calls := 0, false, false, 0;
    }

    /** `fread(buf, buf.Length, 1, stream)`. */
    method Read(buf: array<U8>) returns (n: nat)
      requires Valid()
      modifies this, buf
      ensures Valid() && Source() == old(Source())
      ensures Fread(Source(), old(Current()), Current(), old(buf[..]), buf[..], n)
    {
      if buf.Length == 0 {
        return 0;
      }
      calls := calls + 1;
      if failingRead == Some(calls - 1) {
        error := true;
        return 0;
      }
      if eof {
        return 0;
      }
      if pos + buf.Length <= |contents| {
        forall i | 0 <= i < buf.Length {
          buf[i] := contents[pos + i];
        }
        pos := pos + buf.Length;
        return 1;
      }
      var left := |contents| - pos;
      forall i | 0 <= i < left {
        buf[i] := contents[pos + i];
      }
      assert buf[..] == contents[pos..] + old(buf[..])[left..];
      pos, eof := |contents|, true;
      return 0;
    }
  }
}
