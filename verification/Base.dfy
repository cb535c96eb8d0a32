// Names shared by every module of the model.
module Base {

  // A C byte, as an integer: arithmetic on it is integer arithmetic, and every
  // place where the C code wraps or truncates is written out where it happens.
  type Byte = b: int | 0 <= b < 256

  // uint32_t
  type Word = w: int | 0 <= w < 0x1_0000_0000

  datatype Option<+T> = None | Some(value: T)

  predicate IsDigit(b: Byte) { 48 <= b <= 57 }

  predicate IsHex(b: Byte) {
    IsDigit(b) || 97 <= b <= 102 || 65 <= b <= 70
  }

  function HexVal(b: Byte): nat
    requires IsHex(b)
  {
    if IsDigit(b) then b - 48 else if b >= 97 then b - 97 + 10 else b - 65 + 10
  }

  // A hex digit of this value, as a capital or a small letter where it is a letter.
  function HexDigit(d: nat, capital: bool): Byte
    requires d < 16
  {
    if d < 10 then 48 + d else if capital then 65 + (d - 10) else 97 + (d - 10)
  }

  // The bytes that are read as hex digits, and as which.
  lemma HexReadsDigits(b: Byte)
    ensures IsHex(b) <==> exists d: nat, capital :: d < 16 && b == HexDigit(d, capital)
    ensures forall d: nat, capital :: d < 16 && b == HexDigit(d, capital) ==> HexVal(b) == d
  {
    if IsHex(b) {
      assert b == HexDigit(HexVal(b), b < 97);
    }
  }

  // A text as bytes.
  function Ascii(s: string): seq<Byte> {
    seq(|s|, i requires 0 <= i < |s| => (s[i] as int) % 256)
  }

  // No two places of the sequence hold the same value.
  ghost predicate Distinct<T>(s: seq<T>) {
    forall i, j :: 0 <= i < j < |s| ==> s[i] != s[j]
  }

  // The first index whose element satisfies p, or |s| when there is none.
  function FirstIndex<T>(s: seq<T>, p: T -> bool): (k: nat)
    ensures k <= |s|
    ensures k < |s| ==> p(s[k])
    ensures forall i :: 0 <= i < k ==> !p(s[i])
  {
    if s == [] then 0
    else if p(s[0]) then 0
    else
      var rest := FirstIndex(s[1..], p);
      assert forall i :: 1 <= i < |s| ==> s[1..][i - 1] == s[i];
      1 + rest
  }

  // The first place of x, or |s| when there is none.
  function IndexOf<T(==)>(s: seq<T>, x: T): (k: nat)
    ensures k <= |s|
  {
    if s == [] || s[0] == x then 0 else 1 + IndexOf(s[1..], x)
  }

  lemma {:induction false} IndexOfMeans<T>(s: seq<T>, x: T)
    ensures IndexOf(s, x) < |s| ==> s[IndexOf(s, x)] == x
    ensures x !in s[..IndexOf(s, x)]
  {
    if s != [] && s[0] != x {
      IndexOfMeans(s[1..], x);
      assert s[..IndexOf(s, x)] == [s[0]] + s[1..][..IndexOf(s[1..], x)];
    }
  }

  lemma {:induction false} IndexOfIs<T>(s: seq<T>, x: T, k: nat)
    requires k <= |s| && x !in s[..k] && (k < |s| ==> s[k] == x)
    ensures IndexOf(s, x) == k
  {
    if k > 0 {
      assert s[..k][0] == s[0];
      assert s[1..][..k - 1] == s[..k][1..];
      IndexOfIs(s[1..], x, k - 1);
    }
  }

  lemma HeadAndTail<T>(s: seq<T>, t: seq<T>)
    requires s != []
    ensures [s[0]] + (s[1..] + t) == s + t
  {
  }
}
