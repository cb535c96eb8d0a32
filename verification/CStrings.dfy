// C strings in a buffer: bytes up to a NUL, and what keeps them when the buffer is
// written to.
module CStrings {
  import opened Base

  const NUL: Byte := 0

  // What a byte is as a char, which is signed.
  function Signed(b: Byte): (c: int)
    ensures -128 <= c <= 127 && (c - b) % 256 == 0
  {
    if b < 128 then b else b - 256
  }

  // The string that starts here: up to the first NUL.
  function CString(s: seq<Byte>): (r: seq<Byte>)
    ensures r <= s && NUL !in r
  {
    if s == [] || s[0] == NUL then [] else [s[0]] + CString(s[1..])
  }

  lemma {:induction false} CStringOfPlain(s: seq<Byte>)
    requires NUL !in s
    ensures CString(s) == s
  {
    if s != [] {
      CStringOfPlain(s[1..]);
    }
  }

  lemma {:induction false} StringEndsAtNul(line: seq<Byte>, rest: seq<Byte>)
    ensures CString(line + [NUL] + rest) == CString(line)
  {
    if line != [] {
      assert (line + [NUL] + rest)[1..] == line[1..] + [NUL] + rest;
      StringEndsAtNul(line[1..], rest);
    }
  }

  function Lower(b: Byte): Byte {
    if 65 <= b <= 90 then b + 32 else b
  }

  // strncasecmp(s, word, |word|) == 0
  predicate StartsFold(s: seq<Byte>, word: seq<Byte>) {
    |s| >= |word| && forall k :: 0 <= k < |word| ==> Lower(s[k]) == Lower(word[k])
  }

  // The same letters, each of them small or capital, and the same of everything else.
  predicate CaseOf(s: seq<Byte>, word: seq<Byte>) {
    && |s| == |word|
    && forall k :: 0 <= k < |s| ==>
         || s[k] == word[k]
         || (65 <= s[k] <= 90 && word[k] == s[k] + 32)
         || (97 <= s[k] <= 122 && word[k] == s[k] - 32)
  }

  predicate StartsCase(s: seq<Byte>, word: seq<Byte>) {
    |s| >= |word| && CaseOf(s[..|word|], word)
  }

  lemma FoldIsCase(s: seq<Byte>, word: seq<Byte>)
    ensures StartsFold(s, word) <==> StartsCase(s, word)
  {
  }

  // The C string at this offset, its NUL in front of `end`.
  predicate Holds(b: seq<Byte>, at: nat, text: seq<Byte>, end: nat) {
    at + |text| < end <= |b| && b[at..at + |text|] == text && NUL !in text && b[at + |text|] == NUL
  }

  // Bytes in front of `end` that stay as they are keep their strings.
  lemma HoldsAfter(b: seq<Byte>, after: seq<Byte>, at: nat, text: seq<Byte>, end: nat, end': nat)
    requires Holds(b, at, text, end) && end <= end' <= |after| && after[..end] == b[..end]
    ensures Holds(after, at, text, end')
  {
    assert after[at..at + |text|] == after[..end][at..at + |text|] == b[..end][at..at + |text|] == b[at..at + |text|];
    assert after[..end][at + |text|] == b[..end][at + |text|];
  }

  // Bytes ended by a NUL hold the C string they start with.
  lemma {:induction false} HoldsCString(b: seq<Byte>, at: nat, len: nat, end: nat)
    requires at + len < end <= |b| && b[at + len] == NUL
    ensures Holds(b, at, CString(b[at..at + len]), end)
    decreases len
  {
    if len == 0 || b[at] == NUL {
      assert CString(b[at..at + len]) == [];
    } else {
      HoldsCString(b, at + 1, len - 1, end);
      var rest := CString(b[at + 1..at + len]);
      assert b[at..at + len][1..] == b[at + 1..at + len];
      assert b[at..at + len][0] == b[at];
      assert CString(b[at..at + len]) == [b[at]] + rest;
    }
  }

  lemma SliceOfSlice(b: seq<Byte>, from: nat, to: nat, i: nat, j: nat)
    requires from <= to <= |b| && i <= j <= to - from
    ensures b[from..to][i..j] == b[from + i..from + j]
  {
    assert forall k :: 0 <= k < j - i ==> b[from..to][i..j][k] == b[from + i..from + j][k];
  }

  lemma PartOfPrefix(a: seq<Byte>, b: seq<Byte>, from: nat, to: nat)
    requires from <= to <= |a| && to <= |b| && a[..to] == b[..to]
    ensures a[..from] == b[..from] && a[from..to] == b[from..to]
  {
    assert a[..from] == a[..to][..from] && b[..from] == b[..to][..from];
    assert a[from..to] == a[..to][from..] && b[from..to] == b[..to][from..];
  }
}
