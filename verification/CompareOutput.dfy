/** server/server.c: comparing a program's output with the answers, whitespace aside. */
module CompareOutput {
  import opened Bytes
  import opened Options

  const EOF := -1

  /** isspace in the C locale; EOF is none. */
  predicate IsSpace(c: int) {
    c == 32 || 9 <= c <= 13
  }

  function Stripped(s: seq<byte>): seq<byte> {
    if s == [] then [] else (if IsSpace(s[0]) then [] else [s[0]]) + Stripped(s[1..])
  }

  lemma {:induction false} StrippedConcat(a: seq<byte>, b: seq<byte>)
    ensures Stripped(a + b) == Stripped(a) + Stripped(b)
  {
    if a == [] {
      assert a + b == b;
    } else {
      assert (a + b)[1..] == a[1..] + b;
      StrippedConcat(a[1..], b);
    }
  }

  lemma {:induction false} StrippedSpaces(s: seq<byte>)
    requires forall i :: 0 <= i < |s| ==> IsSpace(s[i])
    ensures Stripped(s) == []
  {
    if s != [] {
      StrippedSpaces(s[1..]);
    }
  }

  /** Whitespace put in anywhere does not change what is compared. */
  lemma SpacesDoNotCount(a: seq<byte>, spaces: seq<byte>, b: seq<byte>)
    requires forall i :: 0 <= i < |spaces| ==> IsSpace(spaces[i])
    ensures Stripped(a + spaces + b) == Stripped(a + b)
  {
    StrippedConcat(a + spaces, b);
    StrippedConcat(a, spaces);
    StrippedConcat(a, b);
    StrippedSpaces(spaces);
  }

  /** Exactly the six whitespace characters can be put anywhere into a file without changing a verdict:
      the space, and those from the tab to the carriage return. */
  lemma WhitespaceExactly(c: byte)
    ensures (forall a: seq<byte>, b: seq<byte> :: Stripped(a + [c] + b) == Stripped(a + b)) <==> c == 32 || 9 <= c <= 13
    ensures !(c == 32 || 9 <= c <= 13) ==>
              forall a: seq<byte>, b: seq<byte> :: Stripped(a + [c] + b) == Stripped(a) + [c] + Stripped(b)
  {
    hide Stripped;
    OneByte(c);
    NothingStripped();
    if c == 32 || 9 <= c <= 13 {
      forall a: seq<byte>, b: seq<byte> ensures Stripped(a + [c] + b) == Stripped(a + b) {
        SpacesDoNotCount(a, [c], b);
      }
    } else {
      forall a: seq<byte>, b: seq<byte> ensures Stripped(a + [c] + b) == Stripped(a) + [c] + Stripped(b) {
        StrippedConcat(a + [c], b);
        StrippedConcat(a, [c]);
      }
      var none: seq<byte> := [];
      assert none + [c] + none == [c] && none + none == [];
      assert Stripped(none + [c] + none) != Stripped(none + none);
    }
  }

  lemma OneByte(c: byte)
    ensures Stripped([c]) == if c == 32 || 9 <= c <= 13 then [] else [c]
  {
    assert [c][1..] == [];
  }

  lemma NothingStripped()
    ensures Stripped([]) == []
  {
  }

  lemma HeadAndTail(a: byte, x: seq<byte>, b: byte, y: seq<byte>)
    ensures [a] + x == [b] + y <==> a == b && x == y
  {
    assert ([a] + x)[0] == a && ([a] + x)[1..] == x;
    assert ([b] + y)[0] == b && ([b] + y)[1..] == y;
  }

  /** A file open for reading. */
  class File {
    const data: seq<byte>
    var pos: nat

    ghost predicate Valid()
      reads this
    {
      pos <= |data|
    }

    ghost function Rest(): seq<byte>
      reads this
      requires Valid()
    {
      data[pos..]
    }

    constructor (data: seq<byte>)
      ensures Valid() && Rest() == data
    {
      this.data, pos := data, 0;
    }

    /** fgetc. */
    method GetChar() returns (c: int)
      requires Valid()
      modifies this
      ensures Valid()
      ensures if old(pos) == |data| then c == EOF && pos == old(pos) else c == data[old(pos)] && pos == old(pos) + 1
    {
      if pos == |data| {
        return EOF;
      }
      c := data[pos];
      pos := pos + 1;
    }

    /** The inner loop: the next character that is not whitespace. */
    method GetVisible() returns (c: int)
      requires Valid()
      modifies this
      ensures Valid() && pos >= old(pos)
      ensures c == EOF ==> Rest() == [] && Stripped(old(Rest())) == []
      ensures c != EOF ==> 0 <= c < 256 && [c] + Stripped(Rest()) == Stripped(old(Rest())) && pos > old(pos)
    {
      ghost var rest := Rest();
      c := GetChar();
      assert c != EOF ==> rest == [c] + Rest();
      while IsSpace(c)
        invariant Valid() && pos >= old(pos)
        invariant c == EOF ==> Rest() == [] && Stripped(rest) == []
        invariant c != EOF ==> 0 <= c < 256 && Stripped([c] + Rest()) == Stripped(rest) && pos > old(pos)
        decreases c != EOF, |data| - pos
      {
        assert ([c] + Rest())[1..] == Rest();
        ghost var left := Rest();
        c := GetChar();
        assert c != EOF ==> left == [c] + Rest();
      }
      if c != EOF {
        assert ([c] + Rest())[1..] == Rest();
      }
    }
  }

  /** -1 if a file cannot be opened; else 1 if the files are the same but for whitespace, and 0 if
      they are not. */
  method Compare(actual: Option<seq<byte>>, expected: Option<seq<byte>>) returns (r: int)
    ensures actual.None? || expected.None? ==> r == -1
    ensures actual.Some? && expected.Some? ==>
              r == if Stripped(actual.value) == Stripped(expected.value) then 1 else 0
  {
    if actual.None? || expected.None? {
      return -1;
    }
    var fa := new File(actual.value);
    var fe := new File(expected.value);
    while true
      invariant fa.Valid() && fe.Valid() && fa != fe
      invariant Stripped(actual.value) == Stripped(expected.value) <==> Stripped(fa.Rest()) == Stripped(fe.Rest())
      decreases |fa.data| - fa.pos
    {
      var a := fa.GetVisible();
      var e := fe.GetVisible();
      if a == EOF && e == EOF {
        return 1;
      }
      if a != EOF && e != EOF {
        HeadAndTail(a, Stripped(fa.Rest()), e, Stripped(fe.Rest()));
      }
      if a != e {
        return 0;
      }
    }
  }
}
