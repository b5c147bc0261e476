/** Three-way comparison as Rust derives it: on integers, on optional
    values (`None` below every `Some`), and lexicographically on slices and
    on iterators of components. Each comparator is proved to be a strict
    total order in the sense of `IsComparator`. */
module Compare {
  import opened Base

  /** `cmp` answers `Equal` exactly on equal arguments, is antisymmetric and
      is transitive: the laws Rust's `Ord` asks of an implementation. */
  ghost predicate IsComparator<T(!new)>(cmp: (T, T) -> Ordering) {
    && (forall x, y :: cmp(x, y) == Equal <==> x == y)
    && (forall x, y :: cmp(y, x) == cmp(x, y).Reverse())
    && (forall x, y, z :: cmp(x, y) == Less && cmp(y, z) == Less ==> cmp(x, z) == Less)
  }

  function CmpInt(x: int, y: int): Ordering {
    if x < y then Less else if x == y then Equal else Greater
  }

  function CmpByte(x: byte, y: byte): Ordering {
    CmpInt(x as int, y as int)
  }

  function CmpU32(x: u32, y: u32): Ordering {
    CmpInt(x as int, y as int)
  }

  lemma ByteIsComparator()
    ensures IsComparator(CmpByte)
  {
  }

  lemma U32IsComparator()
    ensures IsComparator(CmpU32)
  {
  }

  /** The derived order on `Option<T>`: `None < Some(_)`, and two `Some`s
      compare by their contents. */
  function CmpOption<T>(a: Option<T>, b: Option<T>, cmp: (T, T) -> Ordering): Ordering {
    match (a, b)
    case (None, None) => Equal
    case (None, Some(_)) => Less
    case (Some(_), None) => Greater
    case (Some(x), Some(y)) => cmp(x, y)
  }

  lemma OptionIsComparator<T(!new)>(cmp: (T, T) -> Ordering)
    requires IsComparator(cmp)
    ensures forall a, b :: CmpOption(a, b, cmp) == Equal <==> a == b
    ensures forall a, b :: CmpOption(b, a, cmp) == CmpOption(a, b, cmp).Reverse()
    ensures forall a, b, c ::
      CmpOption(a, b, cmp) == Less && CmpOption(b, c, cmp) == Less ==> CmpOption(a, c, cmp) == Less
  {
  }

  /** Lexicographic order on sequences, as Rust's `Ord` for slices and for
      iterators: the first differing position decides, and a proper prefix
      is smaller. */
  function Lexicographic<T>(a: seq<T>, b: seq<T>, cmp: (T, T) -> Ordering): Ordering {
    if a == [] && b == [] then Equal
    else if a == [] then Less
    else if b == [] then Greater
    else
      var head := cmp(a[0], b[0]);
      if head != Equal then head else Lexicographic(a[1..], b[1..], cmp)
  }

  lemma {:induction false} LexicographicEqual<T(!new)>(a: seq<T>, b: seq<T>, cmp: (T, T) -> Ordering)
    requires IsComparator(cmp)
    ensures Lexicographic(a, b, cmp) == Equal <==> a == b
  {
    if a != [] && b != [] && cmp(a[0], b[0]) == Equal {
      LexicographicEqual(a[1..], b[1..], cmp);
      assert a == [a[0]] + a[1..] && b == [b[0]] + b[1..];
    }
  }

  lemma {:induction false} LexicographicReverse<T(!new)>(a: seq<T>, b: seq<T>, cmp: (T, T) -> Ordering)
    requires IsComparator(cmp)
    ensures Lexicographic(b, a, cmp) == Lexicographic(a, b, cmp).Reverse()
  {
    if a != [] && b != [] && cmp(a[0], b[0]) == Equal {
      LexicographicReverse(a[1..], b[1..], cmp);
    }
  }

  lemma {:induction false} LexicographicTransitive<T(!new)>(a: seq<T>, b: seq<T>, c: seq<T>, cmp: (T, T) -> Ordering)
    requires IsComparator(cmp)
    requires Lexicographic(a, b, cmp) == Less && Lexicographic(b, c, cmp) == Less
    ensures Lexicographic(a, c, cmp) == Less
  {
    if a != [] && cmp(a[0], b[0]) == Equal && cmp(b[0], c[0]) == Equal {
      LexicographicTransitive(a[1..], b[1..], c[1..], cmp);
    }
  }

  lemma LexicographicIsComparator<T(!new)>(cmp: (T, T) -> Ordering)
    requires IsComparator(cmp)
    ensures forall a, b :: Lexicographic(a, b, cmp) == Equal <==> a == b
    ensures forall a, b :: Lexicographic(b, a, cmp) == Lexicographic(a, b, cmp).Reverse()
    ensures forall a, b, c ::
      Lexicographic(a, b, cmp) == Less && Lexicographic(b, c, cmp) == Less ==> Lexicographic(a, c, cmp) == Less
  {
    forall a, b ensures Lexicographic(a, b, cmp) == Equal <==> a == b {
      LexicographicEqual(a, b, cmp);
    }
    forall a, b ensures Lexicographic(b, a, cmp) == Lexicographic(a, b, cmp).Reverse() {
      LexicographicReverse(a, b, cmp);
    }
    forall a, b, c | Lexicographic(a, b, cmp) == Less && Lexicographic(b, c, cmp) == Less
      ensures Lexicographic(a, c, cmp) == Less
    {
      LexicographicTransitive(a, b, c, cmp);
    }
  }

  /** Rust's `Ord` for `str` and `String`: lexicographic on the bytes. */
  function CmpBytes(a: seq<byte>, b: seq<byte>): Ordering {
    Lexicographic(a, b, CmpByte)
  }

  lemma BytesIsComparator()
    ensures IsComparator(CmpBytes)
  {
    ByteIsComparator();
    LexicographicIsComparator(CmpByte);
  }
}
