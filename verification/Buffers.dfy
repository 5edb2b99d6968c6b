/** The character buffers the lexer reads from: over a string in memory, over read(2) and over
    fgets(3). Each gives the characters of one stream in order and then the end marker for ever,
    however the stream is cut into chunks. */
module Buffers {
  const BUF_EOF: int := -1
  const NUL: char := '\0'

  /** ASCII characters other than NUL. */
  predicate Plain(s: string) {
    forall i :: 0 <= i < |s| ==> 0 < s[i] as int < 128
  }

  /** ASCII characters, NUL among them. */
  predicate Ascii(s: string) {
    forall i :: 0 <= i < |s| ==> s[i] as int < 128
  }

  lemma PlainParts(a: string, b: string)
    requires Plain(a + b)
    ensures Plain(a) && Plain(b)
  {
    assert forall i :: 0 <= i < |a| ==> a[i] == (a + b)[i];
    assert forall i :: 0 <= i < |b| ==> b[i] == (a + b)[|a| + i];
  }

  /** What getc gives and leaves of a stream. */
  function First(s: string): int {
    if s == [] then BUF_EOF else s[0] as int
  }

  function Rest(s: string): string {
    if s == [] then [] else s[1..]
  }

  /** An open file: what has not been read yet. */
  class File {
    var rest: string

    constructor (text: string)
      ensures rest == text
    {
      rest := text;
    }

    /** read(2): any number of bytes from 1 to max, and 0 only at the end of the file. */
    method Read(max: nat) returns (bytes: string)
      requires max > 0
      modifies this
      ensures |bytes| <= max && old(rest) == bytes + rest && (bytes == [] <==> old(rest) == [])
    {
      if rest == [] {
        return [];
      }
      var n: nat :| 1 <= n <= max && n <= |rest|;
      bytes := rest[..n];
      rest := rest[n..];
    }

    /** fgets(3): a line with its newline, or as much of one as max allows; nothing at the end. */
    method Gets(max: nat) returns (line: string)
      requires max > 0
      modifies this
      ensures |line| <= max && old(rest) == line + rest && (line == [] <==> old(rest) == [])
      ensures forall i :: 0 <= i < |line| - 1 ==> line[i] != '\n'
      ensures rest == [] || |line| == max || line[|line| - 1] == '\n'
    {
      var n := 0;
      while n < max && n < |rest| && (n == 0 || rest[n - 1] != '\n')
        invariant n <= max && n <= |rest| && (rest != [] && n == 0 ==> n < max)
        invariant forall i :: 0 <= i < n - 1 ==> rest[i] != '\n'
      {
        n := n + 1;
      }
      line := rest[..n];
      rest := rest[n..];
    }
  }

  // ----- over a string ------------------------------------------------------

  class BufNstr {
    const str: string
    var p: nat

    ghost predicate Valid()
      reads this
    {
      p <= |str| && Ascii(str)
    }

    ghost function Stream(): string
      requires Valid()
      reads this
    {
      str[p..]
    }

    constructor (str: string)
      requires Ascii(str)
      ensures Valid() && Stream() == str
    {
      this.str, p := str, 0;
    }

    predicate Empty()
      reads this
    {
      p == |str|
    }

    method Getc() returns (c: int)
      requires Valid()
      modifies this
      ensures Valid() && c == First(old(Stream())) && Stream() == Rest(old(Stream()))
    {
      c := BUF_EOF;
      if !Empty() {
        c := str[p] as int;
        p := p + 1;
      }
    }
  }

  // ----- chunks in memory ---------------------------------------------------

  /** Between p and the terminating NUL at `end` are the characters still to be given out. */
  ghost predicate Chunk(data: array<char>, size: nat, p: nat, end: nat)
    reads data
  {
    data.Length == size + 1 && p <= end <= size && data[end] == NUL && Plain(data[p..end])
  }

  /** Store a chunk and terminate it. */
  method Load(data: array<char>, bytes: string)
    requires |bytes| < data.Length && Plain(bytes)
    modifies data
    ensures Chunk(data, data.Length - 1, 0, |bytes|) && data[0..|bytes|] == bytes
  {
    for i := 0 to |bytes|
      invariant data[..i] == bytes[..i]
    {
      data[i] := bytes[i];
    }
    data[|bytes|] := NUL;
    assert data[0..|bytes|] == bytes;
  }

  // ----- over read(2) -------------------------------------------------------

  class BufUnix {
    const size: nat
    const data: array<char>
    const file: File
    var p: nat
    ghost var end: nat

    ghost predicate Valid()
      reads this, data, file
    {
      size > 0 && Chunk(data, size, p, end) && Plain(file.rest)
    }

    ghost function Stream(): string
      requires Valid()
      reads this, data, file
    {
      data[p..end] + file.rest
    }

    constructor (file: File, size: nat)
      requires size > 0 && Plain(file.rest)
      ensures Valid() && Stream() == file.rest && this.file == file && fresh(data)
    {
      this.file, this.size, p, end := file, size, 0, 0;
      data := new char[size + 1](_ => NUL);
    }

    predicate Empty()
      requires p < data.Length
      reads this, data
    {
      data[p] == NUL
    }

    method Fill() returns (more: bool)
      requires Valid() && p == end
      modifies this, data, file
      ensures Valid() && Stream() == old(Stream()) && (more <==> p < end) && (more <==> old(Stream()) != [])
    {
      ghost var all := file.rest;
      var bytes := file.Read(size);
      PlainParts(bytes, file.rest);
      Load(data, bytes);
      p, end := 0, |bytes|;
      more := !Empty();
    }

    method Next() returns (c: int)
      requires Valid() && p < end
      modifies this
      ensures Valid() && c == First(old(Stream())) && Stream() == Rest(old(Stream()))
    {
      c := data[p] as int;
      p := p + 1;
    }

    method Getc() returns (c: int)
      requires Valid()
      modifies this, data, file
      ensures Valid() && c == First(old(Stream())) && Stream() == Rest(old(Stream()))
    {
      c := BUF_EOF;
      if !Empty() {
        c := Next();
      } else {
        var more := Fill();
        if more {
          c := Next();
        }
      }
    }
  }

  // ----- over fgets(3) ------------------------------------------------------

  class BufStdio {
    const size: nat
    const data: array<char>
    const file: File
    var p: nat
    ghost var end: nat

    ghost predicate Valid()
      reads this, data, file
    {
      size > 1 && Chunk(data, size, p, end) && Plain(file.rest)
    }

    ghost function Stream(): string
      requires Valid()
      reads this, data, file
    {
      data[p..end] + file.rest
    }

    constructor (file: File, size: nat)
      requires size > 1 && Plain(file.rest)
      ensures Valid() && Stream() == file.rest && this.file == file && fresh(data)
    {
      this.file, this.size, p, end := file, size, 0, 0;
      data := new char[size + 1](_ => NUL);
    }

    predicate Empty()
      requires p < data.Length
      reads this, data
    {
      data[p] == NUL
    }

    /** fgets leaves the data alone at the end of the file. */
    method Read() returns (more: bool, ghost got: nat)
      requires Valid() && p == end
      modifies data, file
      ensures size > 1 && data.Length == size + 1 && Plain(file.rest)
      ensures more <==> old(Stream()) != []
      ensures more ==> 0 < got && Chunk(data, size, 0, got) && data[0..got] + file.rest == old(Stream())
      ensures !more ==> Valid() && Stream() == old(Stream())
    {
      var line := file.Gets(size - 1);
      PlainParts(line, file.rest);
      more := line != [];
      got := |line|;
      if more {
        Load(data, line);
      }
    }

    method Fill() returns (more: bool)
      requires Valid() && p == end
      modifies this, data, file
      ensures Valid() && Stream() == old(Stream()) && (more <==> p < end) && (more <==> old(Stream()) != [])
    {
      ghost var got;
      more, got := Read();
      if !more {
        return;
      }
      ghost var chunk := data[0..got];
      data[size] := NUL;
      assert data[0..got] == chunk;
      p, end := 0, got;
    }

    method Next() returns (c: int)
      requires Valid() && p < end
      modifies this
      ensures Valid() && c == First(old(Stream())) && Stream() == Rest(old(Stream()))
    {
      c := data[p] as int;
      p := p + 1;
    }

    method Getc() returns (c: int)
      requires Valid()
      modifies this, data, file
      ensures Valid() && c == First(old(Stream())) && Stream() == Rest(old(Stream()))
    {
      c := BUF_EOF;
      if !Empty() {
        c := Next();
      } else {
        var more := Fill();
        if more {
          c := Next();
        }
      }
    }
  }

  // ----- any of them --------------------------------------------------------

  /** What the function pointer of a base buffer leads to. */
  datatype Buf = Nstr(n: BufNstr) | Unix(u: BufUnix) | Stdio(s: BufStdio)

  ghost function Repr(b: Buf): set<object> {
    match b
    case Nstr(n) => {n}
    case Unix(u) => {u, u.data, u.file}
    case Stdio(s) => {s, s.data, s.file}
  }

  /** A buffer over a string gives a NUL as any character; over a file a NUL ends a chunk early. */
  ghost predicate Valid(b: Buf)
    reads Repr(b)
  {
    match b
    case Nstr(n) => n.Valid() && Plain(n.Stream())
    case Unix(u) => u.Valid()
    case Stdio(s) => s.Valid()
  }

  ghost function Stream(b: Buf): string
    requires Valid(b)
    reads Repr(b)
  {
    match b
    case Nstr(n) => n.Stream()
    case Unix(u) => u.Stream()
    case Stdio(s) => s.Stream()
  }

  lemma StreamPlain(b: Buf)
    requires Valid(b)
    ensures Plain(Stream(b))
  {
  }

  /** The contract of b_getc, whatever is behind it. */
  method Getc(b: Buf) returns (c: int)
    requires Valid(b)
    modifies Repr(b)
    ensures Valid(b) && c == First(old(Stream(b))) && Stream(b) == Rest(old(Stream(b)))
    ensures BUF_EOF <= c < 128 && c != 0
  {
    StreamPlain(b);
    match b
    case Nstr(n) => c := n.Getc();
    case Unix(u) => c := u.Getc();
    case Stdio(s) => c := s.Getc();
  }

  /** The character at hand is the first of s, and the rest of s is still in the buffer. */
  ghost predicate AtHand(c: int, b: Buf, s: string)
    reads Repr(b)
  {
    Valid(b) && BUF_EOF <= c < 128 && c != 0 && c == First(s) && Stream(b) == Rest(s)
  }

  method Take(b: Buf) returns (c: int)
    requires Valid(b)
    modifies Repr(b)
    ensures AtHand(c, b, old(Stream(b)))
  {
    c := Getc(b);
  }

  lemma OneOver(text: string, left: string)
    requires left != []
    ensures text + left == (text + [left[0]]) + left[1..]
  {
  }

  /** Reading a buffer to its end gives its stream, and from then on the end marker. */
  method ReadAll(b: Buf) returns (text: string, after: int)
    requires Valid(b)
    modifies Repr(b)
    ensures text == old(Stream(b)) && AtHand(BUF_EOF, b, []) && after == BUF_EOF
  {
    text := [];
    ghost var s := Stream(b);
    ghost var left := s;
    var c := Take(b);
    while c != BUF_EOF
      invariant AtHand(c, b, left) && text + left == s
      decreases |left|
    {
      OneOver(text, left);
      text, left := text + [c as char], left[1..];
      c := Take(b);
    }
    after := Take(b);
  }
}
