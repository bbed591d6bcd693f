/** Lists of encoded items, over any item codec. A reader takes an item off the front of a byte
    string and returns it with what follows. */
module ListCodec {
  import opened Base

  type Reader<!T> = seq<byte> -> Option<(T, seq<byte>)>

  /** Reading takes back exactly what was encoded, whatever follows. */
  ghost predicate Inverts<T(!new)>(read: Reader<T>, encode: T -> seq<byte>) {
    forall x, t :: read(encode(x) + t) == Some((x, t))
  }

  /** Whatever is read had been encoded. */
  ghost predicate Exact<T>(read: Reader<T>, encode: T -> seq<byte>) {
    forall s :: read(s).Some? ==> s == encode(read(s).value.0) + read(s).value.1
  }

  function EncodeAll<T>(encode: T -> seq<byte>, xs: seq<T>): seq<byte> {
    if xs == [] then [] else encode(xs[0]) + EncodeAll(encode, xs[1..])
  }

  function Front<T>(x: T, more: Option<(seq<T>, seq<byte>)>): Option<(seq<T>, seq<byte>)> {
    match more
    case None => None
    case Some((xs, t)) => Some(([x] + xs, t))
  }

  /** `count` items, one behind the other. */
  function ReadMany<T>(read: Reader<T>, s: seq<byte>, count: nat): (r: Option<(seq<T>, seq<byte>)>)
    ensures r.Some? ==> |r.value.0| == count
    decreases count
  {
    if count == 0 then Some(([], s))
    else
      match read(s)
      case None => None
      case Some((x, t)) => Front(x, ReadMany(read, t, count - 1))
  }

  lemma {:induction false} ReadsMany<T(!new)>(read: Reader<T>, encode: T -> seq<byte>, xs: seq<T>, t: seq<byte>)
    requires Inverts(read, encode)
    ensures ReadMany(read, EncodeAll(encode, xs) + t, |xs|) == Some((xs, t))
    decreases |xs|
  {
    if xs == [] {
      assert EncodeAll(encode, xs) + t == t;
    } else {
      var more := EncodeAll(encode, xs[1..]);
      Associative(encode(xs[0]), more, t);
      assert read(encode(xs[0]) + (more + t)) == Some((xs[0], more + t));
      ReadsMany(read, encode, xs[1..], t);
      assert [xs[0]] + xs[1..] == xs;
    }
  }

  lemma {:induction false} ManyWereEncoded<T>(read: Reader<T>, encode: T -> seq<byte>, s: seq<byte>, count: nat)
    requires Exact(read, encode) && ReadMany(read, s, count).Some?
    ensures var r := ReadMany(read, s, count).value; s == EncodeAll(encode, r.0) + r.1
    decreases count
  {
    if count > 0 {
      var (x, t) := read(s).value;
      ManyWereEncoded(read, encode, t, count - 1);
      var (xs, u) := ReadMany(read, t, count - 1).value;
      assert ([x] + xs)[1..] == xs;
      Associative(encode(x), EncodeAll(encode, xs), u);
    }
  }

  // ---- records until the input is used up ----

  /** Every item up to the end of the input; None when something is left that is no item. */
  function ReadAll<T>(read: Reader<T>, s: seq<byte>): (r: Option<seq<T>>)
    decreases |s|
  {
    if s == [] then Some([])
    else
      match read(s)
      case None => None
      case Some((x, t)) => if |t| < |s| then Cons(x, ReadAll(read, t)) else None
  }

  function Cons<T>(x: T, more: Option<seq<T>>): Option<seq<T>> {
    match more
    case None => None
    case Some(xs) => Some([x] + xs)
  }

  /** `more` behind the items `xs`. */
  function After<T>(xs: seq<T>, more: Option<seq<T>>): Option<seq<T>> {
    match more
    case None => None
    case Some(ys) => Some(xs + ys)
  }

  lemma AfterNothing<T>(more: Option<seq<T>>)
    ensures After([], more) == more
  {
    assert more.Some? ==> [] + more.value == more.value;
  }

  lemma AfterCons<T>(xs: seq<T>, x: T, more: Option<seq<T>>)
    ensures After(xs, Cons(x, more)) == After(xs + [x], more)
  {
    if more.Some? {
      assert xs + ([x] + more.value) == xs + [x] + more.value;
    }
  }

  ghost predicate NonEmpty<T(!new)>(encode: T -> seq<byte>) {
    forall x :: encode(x) != []
  }

  /** Encoded items in front of any input are read off first. */
  lemma {:induction false} ReadsAll<T(!new)>(read: Reader<T>, encode: T -> seq<byte>, xs: seq<T>, t: seq<byte>)
    requires Inverts(read, encode) && NonEmpty(encode)
    ensures ReadAll(read, EncodeAll(encode, xs) + t) == After(xs, ReadAll(read, t))
    decreases |xs|
  {
    var more := ReadAll(read, t);
    if xs == [] {
      assert EncodeAll(encode, xs) + t == t;
      assert more.Some? ==> [] + more.value == more.value;
    } else {
      var rest := EncodeAll(encode, xs[1..]) + t;
      Associative(encode(xs[0]), EncodeAll(encode, xs[1..]), t);
      assert encode(xs[0]) != [] && read(encode(xs[0]) + rest) == Some((xs[0], rest));
      ReadsAll(read, encode, xs[1..], t);
      assert ReadAll(read, encode(xs[0]) + rest) == Cons(xs[0], After(xs[1..], more));
      assert more.Some? ==> [xs[0]] + (xs[1..] + more.value) == xs + more.value;
    }
  }

  lemma {:induction false} AllWereEncoded<T>(read: Reader<T>, encode: T -> seq<byte>, s: seq<byte>)
    requires Exact(read, encode) && ReadAll(read, s).Some?
    ensures EncodeAll(encode, ReadAll(read, s).value) == s
    decreases |s|
  {
    if s != [] {
      var (x, t) := read(s).value;
      AllWereEncoded(read, encode, t);
      assert ([x] + ReadAll(read, t).value)[1..] == ReadAll(read, t).value;
    }
  }

  /** Reading distributes over concatenation. */
  lemma ReadAllConcat<T(!new)>(read: Reader<T>, encode: T -> seq<byte>, s: seq<byte>, t: seq<byte>)
    requires Inverts(read, encode) && Exact(read, encode) && NonEmpty(encode) && ReadAll(read, s).Some?
    ensures ReadAll(read, s + t) == After(ReadAll(read, s).value, ReadAll(read, t))
  {
    AllWereEncoded(read, encode, s);
    ReadsAll(read, encode, ReadAll(read, s).value, t);
  }

  // ---- the same lists walked by position ----

  /** A walk step: the item at a position and the position behind it. */
  type Walker<!V> = nat -> Result<(V, nat)>

  function Lead<V>(v: V, more: Result<(seq<V>, nat)>): Result<(seq<V>, nat)> {
    match more
    case Err(e) => Err(e)
    case Ok((vs, p)) => Ok(([v] + vs, p))
  }

  function Along<V>(at: Walker<V>, pos: nat, count: nat): Result<(seq<V>, nat)>
    decreases count
  {
    if count == 0 then Ok(([], pos))
    else
      match at(pos)
      case Err(e) => Err(e)
      case Ok((v, p)) => Lead(v, Along(at, p, count - 1))
  }

  function Map<T, V>(f: T -> V, xs: seq<T>): seq<V> {
    if xs == [] then [] else [f(xs[0])] + Map(f, xs[1..])
  }

  lemma {:induction false} MapSnoc<T, V>(f: T -> V, xs: seq<T>, x: T)
    ensures Map(f, xs + [x]) == Map(f, xs) + [f(x)]
  {
    if xs == [] {
      assert xs + [x] == [x] && [x][1..] == [];
    } else {
      MapSnoc(f, xs[1..], x);
      assert (xs + [x])[1..] == xs[1..] + [x];
    }
  }

  /** At `p` the walker and the reader see the same item and the same rest. */
  ghost predicate Agree<T, V>(buf: seq<byte>, w: Result<(V, nat)>, r: Option<(T, seq<byte>)>, view: T -> V) {
    match (w, r)
    case (Err(_), None) => true
    case (Ok((v, p)), Some((x, t))) => v == view(x) && p <= |buf| && t == buf[p..]
    case _ => false
  }

  lemma {:induction false} WalkersAgree<T, V>(buf: seq<byte>, at: Walker<V>, read: Reader<T>, view: T -> V, pos: nat, count: nat)
    requires forall p: nat | p <= |buf| :: Agree(buf, at(p), read(buf[p..]), view)
    requires pos <= |buf|
    ensures Agree(buf, Along(at, pos, count), ReadMany(read, buf[pos..], count), (xs: seq<T>) => Map(view, xs))
    decreases count
  {
    if count > 0 {
      assert Agree(buf, at(pos), read(buf[pos..]), view);
      if at(pos).Ok? {
        var x, next := read(buf[pos..]).value.0, at(pos).value.1;
        WalkersAgree(buf, at, read, view, next, count - 1);
        var more := ReadMany(read, buf[next..], count - 1);
        if more.Some? {
          assert ([x] + more.value.0)[1..] == more.value.0;
        }
      }
    }
  }
}
