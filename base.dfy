/** Shared value types: bytes, 32-bit unsigned integers, optional values,
    three-way comparison results, and the well-formedness of UTF-8 byte
    strings that decides when an OS string converts to text. */
module Base {

  newtype byte = b: int | 0 <= b < 0x100

  /** Rust's `u32`: metadata numbers and durations are 32-bit unsigned. */
  newtype u32 = x: int | 0 <= x < 0x1_0000_0000

  datatype Option<+T> = None | Some(value: T)

  /** Rust's `std::cmp::Ordering`. */
  datatype Ordering = Less | Equal | Greater {
    function Reverse(): Ordering {
      match this
      case Less => Greater
      case Equal => Equal
      case Greater => Less
    }
  }

  /** The bytes of an ASCII literal. */
  function Ascii(s: string): (r: seq<byte>)
    requires forall i | 0 <= i < |s| :: s[i] as int < 0x80
    ensures |r| == |s|
    ensures forall i | 0 <= i < |s| :: r[i] as int == s[i] as int
  {
    seq(|s|, i requires 0 <= i < |s| => s[i] as int as byte)
  }

  predicate IsAscii(s: seq<byte>) {
    forall i | 0 <= i < |s| :: s[i] < 0x80
  }

  predicate IsContinuation(b: byte) {
    0x80 <= b <= 0xBF
  }

  /** Length of the well-formed UTF-8 sequence that starts `s`, or 0 when
      `s` does not start with one (the table of RFC 3629, section 4, which
      is what Rust's `str::from_utf8` accepts). */
  function CharLength(s: seq<byte>): (n: nat)
    ensures n <= |s| && n <= 4
    ensures n > 0 ==> |s| > 0
    ensures |s| > 0 && s[0] < 0x80 ==> n == 1
    ensures n > 1 ==> forall k | 1 <= k < n :: IsContinuation(s[k])
  {
    if |s| == 0 then 0
    else
      var b0 := s[0];
      if b0 < 0x80 then 1
      else if 0xC2 <= b0 <= 0xDF then
        if |s| >= 2 && IsContinuation(s[1]) then 2 else 0
      else if 0xE0 <= b0 <= 0xEF then
        var lo: byte := if b0 == 0xE0 then 0xA0 else 0x80;
        var hi: byte := if b0 == 0xED then 0x9F else 0xBF;
        if |s| >= 3 && lo <= s[1] <= hi && IsContinuation(s[2]) then 3 else 0
      else if 0xF0 <= b0 <= 0xF4 then
        var lo: byte := if b0 == 0xF0 then 0x90 else 0x80;
        var hi: byte := if b0 == 0xF4 then 0x8F else 0xBF;
        if |s| >= 4 && lo <= s[1] <= hi && IsContinuation(s[2]) && IsContinuation(s[3]) then 4 else 0
      else 0
  }

  /** `s` is well-formed UTF-8: it splits into well-formed sequences. */
  predicate Utf8(s: seq<byte>)
    decreases |s|
  {
    s == [] || (CharLength(s) > 0 && Utf8(s[CharLength(s)..]))
  }

  /** Every ASCII byte string is well-formed UTF-8. */
  lemma {:induction false} AsciiIsUtf8(s: seq<byte>)
    requires IsAscii(s)
    ensures Utf8(s)
    decreases |s|
  {
    if s != [] {
      AsciiIsUtf8(s[1..]);
    }
  }

  /** An ASCII byte can only sit at a character boundary: whatever follows
      an ASCII byte inside a well-formed UTF-8 string is well-formed too. */
  lemma {:induction false} Utf8AfterAscii(x: seq<byte>, b: byte, y: seq<byte>)
    requires b < 0x80
    requires Utf8(x + [b] + y)
    ensures Utf8(y)
    decreases |x|
  {
    var s := x + [b] + y;
    var n := CharLength(s);
    if |x| == 0 {
      assert s == [b] + y;
      assert s[1..] == y;
    } else if n <= |x| {
      assert s[n..] == x[n..] + [b] + y;
      Utf8AfterAscii(x[n..], b, y);
    } else {
      assert false;
    }
  }
}
