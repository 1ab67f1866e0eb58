// The mathematical side of src/yc-buffer.c: a buffer is a sequence of pieces,
// and what it holds is their concatenation.
module BufferPieces {
  import opened Basics

  // The destroy callback of a foreign fragment, with its argument.
  type Token = nat

  datatype Piece = Piece(data: seq<byte>, token: Option<Token>)

  ghost function Flatten(ps: seq<Piece>): seq<byte> {
    if ps == [] then [] else ps[0].data + Flatten(ps[1..])
  }

  ghost function TokenOf(p: Piece): multiset<Token> {
    if p.token.Some? then multiset{p.token.value} else multiset{}
  }

  // The callbacks still owed for these pieces.
  ghost function Tokens(ps: seq<Piece>): multiset<Token> {
    if ps == [] then multiset{} else TokenOf(ps[0]) + Tokens(ps[1..])
  }

  lemma {:induction false} FlattenConcat(a: seq<Piece>, b: seq<Piece>)
    ensures Flatten(a + b) == Flatten(a) + Flatten(b)
    ensures Tokens(a + b) == Tokens(a) + Tokens(b)
  {
    if a == [] {
      assert a + b == b;
    } else {
      assert (a + b)[1..] == a[1..] + b;
      FlattenConcat(a[1..], b);
    }
  }

  lemma FlattenOne(p: Piece)
    ensures Flatten([p]) == p.data && Tokens([p]) == TokenOf(p)
  {
    assert [p][1..] == [];
  }

  // Taking the first piece off, or putting one at the end.
  lemma FlattenFirst(ps: seq<Piece>)
    requires ps != []
    ensures Flatten(ps) == ps[0].data + Flatten(ps[1..])
    ensures Tokens(ps) == TokenOf(ps[0]) + Tokens(ps[1..])
  {
  }

  lemma FlattenLast(ps: seq<Piece>, p: Piece)
    ensures Flatten(ps + [p]) == Flatten(ps) + p.data
    ensures Tokens(ps + [p]) == Tokens(ps) + TokenOf(p)
  {
    hide Flatten, Tokens;
    FlattenConcat(ps, [p]);
    FlattenOne(p);
  }

  // Replacing the data of one piece.
  lemma FlattenUpdate(ps: seq<Piece>, i: nat, p: Piece)
    requires i < |ps| && p.token == ps[i].token
    ensures Flatten(ps[i := p]) == Flatten(ps[..i]) + p.data + Flatten(ps[i + 1..])
    ensures Flatten(ps) == Flatten(ps[..i]) + ps[i].data + Flatten(ps[i + 1..])
    ensures Tokens(ps[i := p]) == Tokens(ps)
  {
    hide Flatten, Tokens;
    var a, b := ps[..i], ps[i + 1..];
    assert ps == a + [ps[i]] + b && ps[i := p] == a + [p] + b;
    FlattenLast(a, ps[i]);
    FlattenLast(a, p);
    FlattenConcat(a + [ps[i]], b);
    FlattenConcat(a + [p], b);
  }

  lemma FlattenSplit(ps: seq<Piece>, i: nat)
    requires i <= |ps|
    ensures Flatten(ps) == Flatten(ps[..i]) + Flatten(ps[i..])
    ensures Tokens(ps) == Tokens(ps[..i]) + Tokens(ps[i..])
  {
    hide Flatten, Tokens;
    assert ps == ps[..i] + ps[i..];
    FlattenConcat(ps[..i], ps[i..]);
  }

  // More data in the last piece.
  lemma FlattenExtend(ps: seq<Piece>, data: seq<byte>)
    requires ps != []
    ensures var k := |ps| - 1; var ps' := ps[k := ps[k].(data := ps[k].data + data)];
            Flatten(ps') == Flatten(ps) + data && Tokens(ps') == Tokens(ps)
  {
    var k := |ps| - 1;
    FlattenUpdate(ps, k, ps[k].(data := ps[k].data + data));
    hide Flatten, Tokens;
    NoPieces(ps[k + 1..]);
    Reassociate(Flatten(ps[..k]), ps[k].data, data);
  }

  lemma NoPieces(ps: seq<Piece>)
    requires |ps| == 0
    ensures Flatten(ps) == [] && Tokens(ps) == multiset{}
  {
  }

  lemma Reassociate(a: seq<byte>, b: seq<byte>, c: seq<byte>)
    ensures a + (b + c) + [] == a + b + [] + c
  {
  }

  // Less data in the first piece.
  lemma FlattenTrim(ps: seq<Piece>, n: nat)
    requires ps != [] && n <= |ps[0].data|
    ensures var ps' := ps[0 := ps[0].(data := ps[0].data[n..])];
            Flatten(ps) == ps[0].data[..n] + Flatten(ps') && Tokens(ps') == Tokens(ps)
  {
    var ps' := ps[0 := ps[0].(data := ps[0].data[n..])];
    assert ps'[1..] == ps[1..];
    assert ps[0].data == ps[0].data[..n] + ps[0].data[n..];
    assert Flatten(ps') == ps[0].data[n..] + Flatten(ps[1..]);
  }

  lemma Longer(ps: seq<Piece>, i: nat)
    requires i < |ps|
    ensures ps[..i + 1] == ps[..i] + [ps[i]]
  {
  }

  // Where piece i sits in the whole.
  lemma FlattenAt(ps: seq<Piece>, i: nat)
    requires i < |ps|
    ensures Flatten(ps[..i + 1]) == Flatten(ps[..i]) + ps[i].data
    ensures Flatten(ps) == Flatten(ps[..i]) + ps[i].data + Flatten(ps[i + 1..])
  {
    hide Flatten, Tokens;
    var k := i + 1;
    var a, b, c := ps[..i], ps[..k], ps[k..];
    Longer(ps, i);
    FlattenLast(a, ps[i]);
    FlattenSplit(ps, k);
  }
}
