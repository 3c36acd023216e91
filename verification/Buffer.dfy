/** The contents of a bounded buffer, as a function of the text meant for it. */
module Buffer {
  import opened CString
  import opened Format

  function ToChar(ch: int): char {
    (ch % 256) as char
  }

  /** The characters a text leaves in a buffer. */
  function Chars(t: seq<int>): (s: string)
    ensures |s| == |t|
  {
    if t == [] then [] else Chars(t[..|t| - 1]) + [ToChar(t[|t| - 1])]
  }

  lemma {:induction false} CharsAt(t: seq<int>, i: nat)
    requires i < |t|
    ensures Chars(t)[i] == ToChar(t[i])
  {
    if i < |t| - 1 {
      CharsAt(t[..|t| - 1], i);
    }
  }

  /** Plain bytes survive the way through the callback. */
  lemma {:induction false} CharsOfCodes(s: string)
    requires forall i | 0 <= i < |s| :: s[i] as int < 256
    ensures Chars(Codes(s)) == s
  {
    if s != [] {
      CharsOfCodes(s[..|s| - 1]);
      assert Codes(s)[..|s| - 1] == Codes(s[..|s| - 1]);
    }
  }

  /** How much of a text fits before the terminator. */
  function Fitting(t: seq<int>, size: nat): seq<int>
    requires size > 0
  {
    if |t| < size then t else t[..size - 1]
  }

  // ----- The buffer while it is being filled -----

  /** A memory, the next position to write and the count of characters so far. */
  datatype State = NoBuffer | State(mem: string, buf: nat, cnt: int)

  /** What the callback does with one character: always counts it, stores it if there is room. */
  function Put(s: State, ebuf: nat, ch: int): State {
    if s.NoBuffer? then s
    else if s.buf < ebuf && s.buf < |s.mem| then
      State(s.mem[s.buf := ToChar(ch)], s.buf + 1, Int32(s.cnt + 1))
    else s.(cnt := Int32(s.cnt + 1))
  }

  /** The state after a text has been handed over, character by character. */
  function StateAfter(was: string, p: nat, ebuf: nat, t: seq<int>): State {
    if !(p <= ebuf < |was|) then NoBuffer
    else if t == [] then State(was, p, 0)
    else Put(StateAfter(was, p, ebuf, t[..|t| - 1]), ebuf, t[|t| - 1])
  }

  lemma {:induction false} PutNext(was: string, p: nat, ebuf: nat, t: seq<int>, ch: int)
    ensures StateAfter(was, p, ebuf, t + [ch]) == Put(StateAfter(was, p, ebuf, t), ebuf, ch)
  {
    assert (t + [ch])[..|t|] == t;
  }

  /** A memory with a string put at `p`. */
  function Patched(was: string, p: nat, s: string): string
    requires p + |s| <= |was|
  {
    was[..p] + s + was[p + |s|..]
  }

  /** A memory once the text and a terminator have been put into the `size` characters at `p`. */
  function Filled(was: string, p: nat, size: nat, t: seq<int>): string
    requires size > 0 && p + size <= |was|
  {
    Patched(was, p, Chars(Fitting(t, size)) + ['\0'])
  }

  /** However long the text, the buffer holds as much of it as fits, the rest of the memory is
      as it was, and the count is that of the whole text. */
  lemma {:induction false} StateIs(was: string, p: nat, ebuf: nat, t: seq<int>)
    requires p <= ebuf < |was|
    ensures var s := Chars(Fitting(t, ebuf + 1 - p));
      StateAfter(was, p, ebuf, t) == State(Patched(was, p, s), p + |s|, Int32(|t|))
  {
    if t == [] {
      assert Patched(was, p, []) == was;
    } else {
      var t', ch, size := t[..|t| - 1], t[|t| - 1], ebuf + 1 - p;
      StateIs(was, p, ebuf, t');
      Int32Next(|t'|);
      if |t| < size {
        Stored(was, p, Chars(t'), ToChar(ch));
      } else {
        StaysFull(t, size);
      }
    }
  }

  lemma {:induction false} StaysFull(t: seq<int>, size: nat)
    requires 0 < size <= |t|
    ensures Fitting(t[..|t| - 1], size) == Fitting(t, size)
  {
  }

  lemma {:induction false} Stored(was: string, p: nat, s: string, c: char)
    requires p + |s| < |was|
    ensures Patched(was, p, s)[p + |s| := c] == Patched(was, p, s + [c])
  {
  }

  lemma {:induction false} BufferEnds(was: string, p: nat, ebuf: nat, t: seq<int>)
    ensures var s := StateAfter(was, p, ebuf, t); s.State? ==> p <= s.buf <= ebuf < |s.mem|
  {
    if p <= ebuf < |was| {
      StateIs(was, p, ebuf, t);
    }
  }

  /** Putting the terminator behind the text makes the buffer a string. */
  lemma {:induction false} Terminated(was: string, p: nat, ebuf: nat, t: seq<int>)
    requires p <= ebuf < |was|
    ensures var st := StateAfter(was, p, ebuf, t);
      st.State? && p <= st.buf < |st.mem| && st.mem[st.buf := '\0'] == Filled(was, p, ebuf + 1 - p, t)
  {
    StateIs(was, p, ebuf, t);
    var s := Chars(Fitting(t, ebuf + 1 - p));
    Stored(was, p, s, '\0');
  }

  /** Character by character: the buffer receives the low bytes of as many characters as leave room for
      the NUL behind them, and nothing else changes. */
  lemma {:induction false} FilledShape(was: string, p: nat, size: nat, t: seq<int>)
    requires size > 0 && p + size <= |was|
    ensures var m, n := Filled(was, p, size, t), if |t| < size then |t| else size - 1;
      && |m| == |was| && m[p + n] == '\0'
      && (forall i | p <= i < p + n :: m[i] as int == t[i - p] % 256)
      && (forall i | 0 <= i < p || p + n < i < |was| :: m[i] == was[i])
  {
    var m, n := Filled(was, p, size, t), if |t| < size then |t| else size - 1;
    var f := Fitting(t, size);
    forall i | p <= i < p + n
      ensures m[i] as int == t[i - p] % 256
    {
      CharsAt(f, i - p);
    }
  }
}
