// The tree codec of cor://, which is not part of the repository: a pair of
// functions that share a table of strings. The protocol needs one law of it -
// decoding with the encoder's table gives the tree back and the encoder's new table.
module CorCodec {
  import opened Base

  datatype Codec<!Tree, !Table> = Codec(
    encode: (Tree, Table) -> seq<Byte>,           // the frame's body
    learn: (Tree, Table) -> Table,                // the table after encoding
    decode: (seq<Byte>, Table) -> Option<(Tree, Table)>)

  // corTreeBinEncode and corTreeBinDecode fit each other.
  ghost predicate RoundTrips<Tree(!new), Table(!new)>(c: Codec<Tree, Table>) {
    forall tree, table :: c.decode(c.encode(tree, table), table) == Some((tree, c.learn(tree, table)))
  }

  // ---------------------------------------------------------------------------
  // An instance: first-child/next-sibling trees, names interned in a table. A name
  // met for the first time travels as text and takes the next place of the table;
  // after that it travels as its place. A full table learns nothing more.

  type Name = s: seq<Byte> | |s| < 256

  datatype Tree = Nil | Node(name: Name, child: Tree, next: Tree)

  const NAMES_MAX := 256
  const END: Byte := 0
  const TEXT: Byte := 1
  const PLACE: Byte := 2

  type Names = t: seq<Name> | |t| <= NAMES_MAX

  function PlaceOf(name: Name, table: Names): nat {
    FirstIndex(table, (n: Name) => n == name)
  }

  function LearnName(name: Name, table: Names): Names {
    if PlaceOf(name, table) == |table| < NAMES_MAX then table + [name] else table
  }

  function EncodeName(name: Name, table: Names): (s: seq<Byte>)
    ensures s != []
  {
    if PlaceOf(name, table) < |table| then [PLACE, PlaceOf(name, table)]
    else [TEXT, |name|] + name
  }

  function Learn(tree: Tree, table: Names): Names {
    match tree
    case Nil => table
    case Node(name, child, next) => Learn(next, Learn(child, LearnName(name, table)))
  }

  function Encode(tree: Tree, table: Names): seq<Byte> {
    match tree
    case Nil => [END]
    case Node(name, child, next) =>
      var table1 := LearnName(name, table);
      EncodeName(name, table) + Encode(child, table1) + Encode(next, Learn(child, table1))
  }

  // A name at the front of s, and what follows it.
  function DecodeName(s: seq<Byte>, table: Names): (r: Option<(Name, seq<Byte>)>)
    ensures r.Some? ==> |r.value.1| < |s|
  {
    if |s| < 2 then None
    else if s[0] == PLACE then
      if s[1] < |table| then Some((table[s[1]], s[2..])) else None
    else if s[0] == TEXT then
      if 2 + s[1] <= |s| then Some((s[2..2 + s[1]], s[2 + s[1]..])) else None
    else None
  }

  // A tree at the front of s, the table after it, and what follows it.
  function Decode(s: seq<Byte>, table: Names): (r: Option<(Tree, Names, seq<Byte>)>)
    ensures r.Some? ==> |r.value.2| < |s|
    decreases |s|
  {
    if s == [] then None
    else if s[0] == END then Some((Nil, table, s[1..]))
    else
      match DecodeName(s, table)
      case None => None
      case Some((name, s1)) =>
        match Decode(s1, LearnName(name, table))
        case None => None
        case Some((child, table2, s2)) =>
          match Decode(s2, table2)
          case None => None
          case Some((next, table3, s3)) => Some((Node(name, child, next), table3, s3))
  }

  lemma NameRoundTrip(name: Name, table: Names, rest: seq<Byte>)
    ensures EncodeName(name, table)[0] != END
    ensures DecodeName(EncodeName(name, table) + rest, table) == Some((name, rest))
  {
    var s := EncodeName(name, table) + rest;
    if PlaceOf(name, table) < |table| {
      assert s[2..] == rest;
    } else {
      assert s[2..2 + s[1]] == name && s[2 + s[1]..] == rest;
    }
  }

  lemma {:induction false} TreeRoundTrip(tree: Tree, table: Names, rest: seq<Byte>)
    ensures Decode(Encode(tree, table) + rest, table) == Some((tree, Learn(tree, table), rest))
  {
    match tree
    case Nil =>
      assert (Encode(tree, table) + rest)[1..] == rest;
    case Node(name, child, next) =>
      var table1 := LearnName(name, table);
      var table2 := Learn(child, table1);
      var tail2 := Encode(next, table2) + rest;
      var tail1 := Encode(child, table1) + tail2;
      assert Encode(tree, table) + rest == EncodeName(name, table) + tail1;
      NameRoundTrip(name, table, tail1);
      TreeRoundTrip(child, table1, tail2);
      TreeRoundTrip(next, table2, rest);
  }

  function Interning(): Codec<Tree, Names> {
    Codec(
      (tree: Tree, table: Names) => Encode(tree, table),
      (tree: Tree, table: Names) => Learn(tree, table),
      (s: seq<Byte>, table: Names) =>
        match Decode(s, table)
        case None => None
        case Some((tree, table', rest)) => if rest == [] then Some((tree, table')) else None)
  }

  // The law is not empty: the interning codec obeys it.
  lemma {:induction false} InterningRoundTrips()
    ensures RoundTrips(Interning())
  {
    forall tree, table
      ensures Interning().decode(Interning().encode(tree, table), table) == Some((tree, Interning().learn(tree, table)))
    {
      TreeRoundTrip(tree, table, []);
      assert Encode(tree, table) + [] == Encode(tree, table);
    }
  }
}
