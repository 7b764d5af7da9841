/** Buffers that are updated in place while a text is read (input.c:216-335, conf.c:746-999). */
module InputStream {
  import opened Numbers
  import opened Lexer

  /** A memory buffer opened for reading; one byte is kept free behind the text. */
  class BufferInput {
    const buf: array<char>
    var ptr: nat
    var size: nat

    ghost predicate Valid()
      reads this
    {
      ptr + size + 1 == buf.Length
    }

    ghost function Consumed(): string
      requires Valid()
      reads this, buf
    {
      buf[..ptr]
    }

    ghost function Remaining(): string
      requires Valid()
      reads this, buf
    {
      buf[ptr..ptr + size]
    }

    constructor (text: string)
      ensures Valid() && fresh(buf)
      ensures Consumed() == [] && Remaining() == text
    {
      var a := new char[|text| + 1](_ => NUL);
      var i := 0;
      while i < |text|
        invariant 0 <= i <= |text| && a.Length == |text| + 1 && fresh(a)
        invariant a[..i] == text[..i]
      {
        a[i] := text[i];
        i := i + 1;
      }
      buf, ptr, size := a, 0, |text|;
    }

    method Getc() returns (c: Option<char>)
      requires Valid()
      modifies this
      ensures Valid()
      ensures old(Remaining()) == [] ==> c == None && Remaining() == [] && Consumed() == old(Consumed())
      ensures old(Remaining()) != [] ==>
                && c == Some(old(Remaining())[0]) && Remaining() == old(Remaining())[1..]
                && Consumed() == old(Consumed()) + [c.value]
    {
      if size == 0 {
        return None;
      }
      size := size - 1;
      ptr := ptr + 1;
      return Some(buf[ptr - 1]);
    }

    /** Undoes the Getc that returned c; nothing happens at the start of the buffer. */
    method Ungetc(c: char) returns (ok: bool)
      requires Valid()
      requires Consumed() != [] ==> Consumed()[|Consumed()| - 1] == c
      modifies this
      ensures Valid()
      ensures ok == (old(Consumed()) != [])
      ensures ok ==> Remaining() == [c] + old(Remaining()) && Consumed() + [c] == old(Consumed())
      ensures !ok ==> Remaining() == old(Remaining()) && Consumed() == old(Consumed())
    {
      if ptr == 0 {
        return false;
      }
      ptr := ptr - 1;
      assert buf[ptr] == c;
      size := size + 1;
      return true;
    }
  }

  /** The doubling buffer in which a token is collected. */
  class LocalString {
    var buf: array<char>
    var idx: nat

    ghost predicate Valid()
      reads this
    {
      idx <= buf.Length && 0 < buf.Length
    }

    ghost function Contents(): string
      requires Valid()
      reads this, buf
    {
      buf[..idx]
    }

    constructor ()
      ensures Valid() && fresh(buf) && Contents() == []
    {
      buf := new char[64](_ => NUL);
      idx := 0;
    }

    method AddChar(c: char)
      requires Valid()
      modifies this, buf
      ensures Valid() && (buf == old(buf) || fresh(buf))
      ensures Contents() == old(Contents()) + [c]
    {
      if idx >= buf.Length {
        var bigger := new char[2 * buf.Length](_ => NUL);
        var i := 0;
        while i < buf.Length
          invariant 0 <= i <= buf.Length && fresh(bigger) && bigger.Length == 2 * buf.Length
          invariant bigger[..i] == buf[..i] && buf[..] == old(buf[..])
          modifies bigger
        {
          bigger[i] := buf[i];
          i := i + 1;
        }
        buf := bigger;
      }
      buf[idx] := c;
      idx := idx + 1;
    }
  }

  /** What get_char returns: a character, or a negative code. */
  datatype Got = GotEof | GotInclude | Got(c: char)

  function Flatten(stack: seq<string>): string {
    if stack == [] then [] else stack[0] + Flatten(stack[1..])
  }

  /** A result without the text it leaves, which is the state of the input. */
  datatype Outcome<+T> = Done(value: T) | Fail(error: Error)

  function AsRes<T>(r: Outcome<T>, rest: string): Res<T> {
    match r
    case Done(v) => Ok(v, rest)
    case Fail(e) => Err(e, rest)
  }

  /** input_t: the stack of open files, innermost first, as what each still yields, and one pushed-back result. */
  class Input {
    var stack: seq<string>
    var unget: bool
    var ch: Got

    ghost predicate Valid()
      reads this
    {
      && stack != []
      && (unget && ch.GotEof? ==> Flatten(stack) == [])
    }

    /** What is still to be read. */
    ghost function Text(): string
      reads this
    {
      (if !unget || ch.GotEof? then [] else if ch.GotInclude? then ['<'] else [ch.c]) + Flatten(stack)
    }

    /** Nothing but a character is pushed back. */
    ghost predicate Plain()
      reads this
    {
      Valid() && (unget ==> !ch.GotInclude?)
    }

    constructor (text: string)
      ensures Plain() && !unget && Text() == text
    {
      stack, unget, ch := [text], false, GotEof;
      new;
      assert Flatten([text][1..]) == [];
    }

    /** An included file is read before the rest of the file that includes it. */
    method PushFile(text: string)
      requires Valid() && !unget
      modifies this
      ensures Valid() && !unget && Text() == text + old(Text())
    {
      stack := [text] + stack;
      assert stack[1..] == old(stack);
    }

    method GetChar() returns (g: Got)
      requires Valid()
      modifies this
      ensures Valid() && !unget
      ensures old(Text()) == [] ==> g == GotEof && Text() == []
      ensures old(Text()) != [] ==> Text() == old(Text())[1..]
      ensures old(Text()) != [] ==>
                if old(unget && ch.GotInclude?) then g == GotInclude else g == Got(old(Text())[0])
    {
      if unget {
        unget := false;
        return ch;
      }
      while stack[0] == [] && |stack| > 1
        invariant stack != [] && !unget && Flatten(stack) == old(Flatten(stack))
        decreases |stack|
      {
        stack := stack[1..];
      }
      if stack[0] == [] {
        assert Flatten(stack) == [];
        return GotEof;
      }
      g := Got(stack[0][0]);
      ghost var before := stack;
      stack := stack[0 := stack[0][1..]];
      assert stack[1..] == before[1..];
      return;
    }

    /** The slot holds one result; the precondition is the assertion of unget_char. */
    method UngetChar(g: Got)
      requires Valid() && !unget
      requires g.GotEof? ==> Text() == []
      modifies this
      ensures Valid() && unget && ch == g
      ensures Text() == (if g.GotEof? then [] else if g.GotInclude? then ['<'] else [g.c]) + old(Text())
    {
      ch, unget := g, true;
    }
  }
}
