/** Argument lists as they lie in the builder's buffer. */
module BuildArgs {
  import opened Bytes

  datatype Ptr = Null | At(offset: nat)

  /** The strings one after another, each with its terminator. */
  function Flat(args: seq<Text>): seq<Byte> {
    if args == [] then []
    else Flat(args[..|args| - 1]) + args[|args| - 1] + [0]
  }

  /** Where each of them starts. */
  function Pointers(args: seq<Text>): (s: seq<Ptr>)
    ensures |s| == |args|
  {
    if args == [] then []
    else Pointers(args[..|args| - 1]) + [At(|Flat(args[..|args| - 1])|)]
  }

  /** What a callee sees through an argument vector: the strings up to the first null pointer. */
  function Strings(argv: seq<Ptr>, buf: seq<Byte>): seq<Text> {
    if argv == [] || argv[0].Null? || argv[0].offset > |buf| then []
    else [CString(buf[argv[0].offset..])] + Strings(argv[1..], buf)
  }

  predicate AllNulFree(args: seq<Text>) {
    forall a | a in args :: NulFree(a)
  }

  lemma FlatSnoc(args: seq<Text>, a: Text)
    ensures Flat(args + [a]) == Flat(args) + a + [0]
    ensures Pointers(args + [a]) == Pointers(args) + [At(|Flat(args)|)]
  {
    assert (args + [a])[..|args|] == args;
  }

  lemma {:induction false} FlatPrefix(args: seq<Text>, n: nat)
    requires n <= |args|
    ensures |Flat(args[..n])| <= |Flat(args)| && Flat(args)[..|Flat(args[..n])|] == Flat(args[..n])
    ensures Pointers(args)[..n] == Pointers(args[..n])
    decreases |args|
  {
    if n == |args| {
      assert args[..n] == args;
    } else {
      var m := |args| - 1;
      FlatPrefix(args[..m], n);
      assert args[..m][..n] == args[..n];
      assert Flat(args)[..|Flat(args[..m])|] == Flat(args[..m]);
    }
  }

  lemma BufferBehind(buf: seq<Byte>, flat: seq<Byte>, pre: seq<Byte>, a: Text)
    requires |flat| <= |buf| && buf[..|flat|] == flat
    requires |pre + a + [0]| <= |flat| && flat[..|pre + a + [0]|] == pre + a + [0]
    ensures buf[|pre|..] == a + [0] + buf[|pre + a + [0]|..]
  {
    var all := pre + a + [0];
    assert buf[..|all|] == buf[..|flat|][..|all|];
    assert buf == all + buf[|all|..];
  }

  /** The pointers to a buffer that begins with the strings read as those strings. */
  lemma PointerReads(args: seq<Text>, k: nat, buf: seq<Byte>)
    requires k < |args| && AllNulFree(args)
    requires |Flat(args)| <= |buf| && buf[..|Flat(args)|] == Flat(args)
    ensures Pointers(args)[k] == At(|Flat(args[..k])|)
    ensures |Flat(args[..k])| <= |buf| && CString(buf[|Flat(args[..k])|..]) == args[k]
  {
    hide Flat, Pointers, CString;
    FlatPrefix(args, k + 1);
    FlatPrefix(args, k);
    PointerAt(args, k);
    assert args[..k + 1] == args[..k] + [args[k]];
    FlatSnoc(args[..k], args[k]);
    assert args[k] in args;
    var pre := Flat(args[..k]);
    BufferBehind(buf, Flat(args), pre, args[k]);
    CStringOf(args[k], buf[|pre + args[k] + [0]|..]);
  }

  lemma PointerAt(args: seq<Text>, k: nat)
    requires k < |args|
    ensures Pointers(args)[k] == At(|Flat(args[..k])|)
  {
    hide Flat;
    FlatPrefix(args, k + 1);
    assert args[..k + 1] == args[..k] + [args[k]];
    FlatSnoc(args[..k], args[k]);
    assert Pointers(args)[k] == Pointers(args)[..k + 1][k];
  }

  lemma StringsCons(offset: nat, rest: seq<Ptr>, buf: seq<Byte>)
    requires offset <= |buf|
    ensures Strings([At(offset)] + rest, buf) == [CString(buf[offset..])] + Strings(rest, buf)
  {
    assert ([At(offset)] + rest)[1..] == rest;
  }

  lemma SliceStep<T>(s: seq<T>, i: nat, j: nat, rest: seq<T>)
    requires i < j <= |s|
    ensures s[i..j] + rest == [s[i]] + (s[i + 1..j] + rest)
  {
    assert s[i..j] == [s[i]] + s[i + 1..j];
  }

  /** Reading a stretch of the pointers, up to its end or the null behind them. */
  lemma {:induction false} SliceReads(args: seq<Text>, i: nat, j: nat, rest: seq<Ptr>, buf: seq<Byte>)
    requires i <= j <= |args| && AllNulFree(args)
    requires |Flat(args)| <= |buf| && buf[..|Flat(args)|] == Flat(args)
    ensures Strings(Pointers(args)[i..j] + rest, buf) == args[i..j] + Strings(rest, buf)
    decreases j - i
  {
    if i == j {
      assert Pointers(args)[i..j] + rest == rest;
      assert args[i..j] + Strings(rest, buf) == Strings(rest, buf);
    } else {
      hide Flat, Pointers, CString, Strings;
      PointerReads(args, i, buf);
      SliceReads(args, i + 1, j, rest, buf);
      SliceStep(Pointers(args), i, j, rest);
      StringsCons(|Flat(args[..i])|, Pointers(args)[i + 1..j] + rest, buf);
      SliceStep(args, i, j, Strings(rest, buf));
    }
  }

  /** The vector an exec is given: `init` pointers, then `count` of those from `a` on, which may
      include the null at the end of the list, then a null. */
  lemma ArgvReads(args: seq<Text>, init: nat, a: nat, count: nat, buf: seq<Byte>)
    requires init <= a <= |args| && a + count <= |args| + 1 && AllNulFree(args)
    requires |Flat(args)| <= |buf| && buf[..|Flat(args)|] == Flat(args)
    ensures var end := if a + count <= |args| then a + count else |args|;
      Strings(Pointers(args)[..init] + (Pointers(args) + [Null])[a..a + count] + [Null], buf)
      == args[..init] + args[a..end]
  {
    hide Flat, Pointers, Strings;
    var ps := Pointers(args);
    var end := if a + count <= |args| then a + count else |args|;
    var nulls := if a + count <= |args| then [Null] else [Null, Null];
    assert (ps + [Null])[a..a + count] + [Null] == ps[a..end] + nulls;
    NullReads(nulls, buf);
    SliceReads(args, a, end, nulls, buf);
    assert args[a..end] + [] == args[a..end];
    SliceReads(args, 0, init, ps[a..end] + nulls, buf);
    assert ps[..init] + (ps + [Null])[a..a + count] + [Null] == ps[0..init] + (ps[a..end] + nulls);
    assert args[..init] == args[0..init];
  }

  lemma NullReads(argv: seq<Ptr>, buf: seq<Byte>)
    requires argv != [] && argv[0].Null?
    ensures Strings(argv, buf) == []
  {
  }
}
