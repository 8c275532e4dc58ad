/** The round macros of sha1.c: the plain one (FG) and the six role-rotating
    ones (FA, FB, FC, FD, FE, FT) of the unravelled build. */
module Sha1Round {
  import opened Words
  import opened Sha1Spec

  function R32(x: Word, n: nat): Word
    requires n <= 32
  {
    (x << n) | (x >> (32 - n))
  }

  /** The macros f1 to f4. */
  function CodeF(n: nat, x: Word, y: Word, z: Word): Word
    requires 1 <= n <= 4
  {
    match n
    case 1 => (x & y) | (!x & z)
    case 2 => x ^ y ^ z
    case 3 => (x & y) | (x & z) | (y & z)
    case _ => x ^ y ^ z
  }

  /** The macros CONST1 to CONST4. */
  function CodeConst(n: nat): Word
    requires 1 <= n <= 4
  {
    match n
    case 1 => 0x5a827999
    case 2 => 0x6ed9eba1
    case 3 => 0x8f1bbcdc
    case _ => 0xca62c1d6
  }

  /** Right-hand side shared by all round macros. */
  function Mix(n: nat, a: Word, b: Word, c: Word, d: Word, e: Word, w: Word): Word
    requires 1 <= n <= 4
  {
    Sum5(R32(a, 5), CodeF(n, b, c, d), e, w, CodeConst(n))
  }

  /** The macro FG(n). */
  function FG(n: nat, s: Chain, w: Word): Chain
    requires 1 <= n <= 4
  {
    Chain(Mix(n, s.a, s.b, s.c, s.d, s.e, w), s.a, R32(s.b, 30), s.c, s.d)
  }

  lemma R32IsRotate(x: Word)
    ensures R32(x, 1) == Rotl(x, 1)
    ensures R32(x, 5) == Rotl(x, 5)
    ensures R32(x, 30) == Rotl(x, 30)
  {
  }

  /** The macro argument the source uses at step t. */
  function Group(t: nat): (n: nat)
    ensures 1 <= n <= 4
  {
    if t < 20 then 1 else if t < 40 then 2 else if t < 60 then 3 else 4
  }

  /** f1 and f3 join their terms with | where the standard writes exclusive or. */
  lemma ChoiceAndMajority(x: Word, y: Word, z: Word)
    ensures (x & y) | (!x & z) == Ch(x, y, z)
    ensures (x & y) | (x & z) | (y & z) == Maj(x, y, z)
  {
  }

  lemma CodeFIsF(t: nat, x: Word, y: Word, z: Word)
    requires t < 80
    ensures CodeF(Group(t), x, y, z) == F(t, x, y, z)
    ensures CodeConst(Group(t)) == K(t)
  {
    ChoiceAndMajority(x, y, z);
    if t < 20 {
    } else if t < 40 {
    } else if t < 60 {
    }
  }

  /** The code adds the message word before the constant, the standard after it. */
  lemma SumOrder(p: Word, q: Word, r: Word, s: Word, t: Word)
    ensures Sum5(p, q, r, s, t) == Sum5(p, q, r, t, s)
  {
  }

  /** FG with the macro argument of step t is round t of the standard. */
  lemma PlainRound(t: nat, s: Chain, w: Word)
    requires t < 80
    ensures FG(Group(t), s, w) == Round(t, s, w)
  {
    hide R32, CodeF, CodeConst, F, K, Rotl, Sum5;
    R32IsRotate(s.a);
    R32IsRotate(s.b);
    CodeFIsF(t, s.b, s.c, s.d);
    SumOrder(Rotl(s.a, 5), F(t, s.b, s.c, s.d), s.e, w, K(t));
  }

  /** The six variables of sha1_transform. */
  datatype Vars = Vars(T: Word, A: Word, B: Word, C: Word, D: Word, E: Word)

  datatype Macro = FA(n: nat) | FB(n: nat) | FC(n: nat) | FD(n: nat) | FE(n: nat) | FT(n: nat)

  function Exec(m: Macro, v: Vars, w: Word): Vars
    requires 1 <= m.n <= 4
  {
    match m
    case FA(n) => v.(T := Mix(n, v.A, v.B, v.C, v.D, v.E, w), B := R32(v.B, 30))
    case FB(n) => v.(E := Mix(n, v.T, v.A, v.B, v.C, v.D, w), A := R32(v.A, 30))
    case FC(n) => v.(D := Mix(n, v.E, v.T, v.A, v.B, v.C, w), T := R32(v.T, 30))
    case FD(n) => v.(C := Mix(n, v.D, v.E, v.T, v.A, v.B, w), E := R32(v.E, 30))
    case FE(n) => v.(B := Mix(n, v.C, v.D, v.E, v.T, v.A, w), D := R32(v.D, 30))
    case FT(n) => v.(A := Mix(n, v.B, v.C, v.D, v.E, v.T, w), C := R32(v.C, 30))
  }

  predicate WellFormed(prog: seq<Macro>) { forall i :: 0 <= i < |prog| ==> 1 <= prog[i].n <= 4 }

  /** Straight-line execution of the first k macros; WP advances by one each time. */
  function Run(prog: seq<Macro>, v: Vars, w: seq<Word>, k: nat): Vars
    requires WellFormed(prog) && k <= |prog| && k <= |w|
  {
    if k == 0 then v else Exec(prog[k - 1], Run(prog, v, w, k - 1), w[k - 1])
  }

  /** The unravelled text, row by row as it stands in the source. */
  function Row(r: nat): (row: seq<Macro>)
    requires r < 8
    ensures |row| == 10
  {
    match r
    case 0 => [FA(1), FB(1), FC(1), FD(1), FE(1), FT(1), FA(1), FB(1), FC(1), FD(1)]
    case 1 => [FE(1), FT(1), FA(1), FB(1), FC(1), FD(1), FE(1), FT(1), FA(1), FB(1)]
    case 2 => [FC(2), FD(2), FE(2), FT(2), FA(2), FB(2), FC(2), FD(2), FE(2), FT(2)]
    case 3 => [FA(2), FB(2), FC(2), FD(2), FE(2), FT(2), FA(2), FB(2), FC(2), FD(2)]
    case 4 => [FE(3), FT(3), FA(3), FB(3), FC(3), FD(3), FE(3), FT(3), FA(3), FB(3)]
    case 5 => [FC(3), FD(3), FE(3), FT(3), FA(3), FB(3), FC(3), FD(3), FE(3), FT(3)]
    case 6 => [FA(4), FB(4), FC(4), FD(4), FE(4), FT(4), FA(4), FB(4), FC(4), FD(4)]
    case _ => [FE(4), FT(4), FA(4), FB(4), FC(4), FD(4), FE(4), FT(4), FA(4), FB(4)]
  }

  const UNRAVELLED := seq(80, i requires 0 <= i < 80 => Row(i / 10)[i % 10])

  /** The macro the pattern calls for at step i. */
  function MacroAt(i: nat): Macro {
    var n := Group(i);
    match i % 6
    case 0 => FA(n)
    case 1 => FB(n)
    case 2 => FC(n)
    case 3 => FD(n)
    case 4 => FE(n)
    case _ => FT(n)
  }

  /** The first n macros of a row are those of the pattern from step i on. */
  predicate Follows(row: seq<Macro>, i: nat, n: nat)
    requires n <= |row|
    decreases n
  {
    n == 0 || (row[n - 1] == MacroAt(i + n - 1) && Follows(row, i, n - 1))
  }

  lemma FollowsAt(row: seq<Macro>, i: nat, n: nat, c: nat)
    requires c < n <= |row| && Follows(row, i, n)
    ensures row[c] == MacroAt(i + c)
    decreases n
  {
    if c < n - 1 {
      FollowsAt(row, i, n - 1, c);
    }
  }

  lemma LowRowFollows(r: nat)
    requires r < 4
    ensures Follows(Row(r), 10 * r, 10)
  {
    match r
    case 0 => assert Follows(Row(0), 0, 10);
    case 1 => assert Follows(Row(1), 10, 10);
    case 2 => assert Follows(Row(2), 20, 10);
    case _ => assert Follows(Row(3), 30, 10);
  }

  lemma HighRowFollows(r: nat)
    requires 4 <= r < 8
    ensures Follows(Row(r), 10 * r, 10)
  {
    match r
    case 4 => assert Follows(Row(4), 40, 10);
    case 5 => assert Follows(Row(5), 50, 10);
    case 6 => assert Follows(Row(6), 60, 10);
    case _ => assert Follows(Row(7), 70, 10);
  }

  lemma UnravelledText(i: nat)
    requires i < 80
    ensures |UNRAVELLED| == 80 && UNRAVELLED[i] == MacroAt(i)
  {
    var r, c := i / 10, i % 10;
    if r < 4 {
      LowRowFollows(r);
    } else {
      HighRowFollows(r);
    }
    FollowsAt(Row(r), 10 * r, 10, c);
    assert i == 10 * r + c;
  }

  /** Who plays the roles A to E of the standard after k steps. */
  function Roles(v: Vars, k: nat): Chain {
    match k % 6
    case 0 => Chain(v.A, v.B, v.C, v.D, v.E)
    case 1 => Chain(v.T, v.A, v.B, v.C, v.D)
    case 2 => Chain(v.E, v.T, v.A, v.B, v.C)
    case 3 => Chain(v.D, v.E, v.T, v.A, v.B)
    case 4 => Chain(v.C, v.D, v.E, v.T, v.A)
    case _ => Chain(v.B, v.C, v.D, v.E, v.T)
  }

  /** One macro moves every role one place along the cycle, and is one FG step. */
  lemma RolesAdvance(k: nat, v: Vars, w: Word)
    requires k < 80
    ensures Roles(Exec(MacroAt(k), v, w), k + 1) == FG(Group(k), Roles(v, k), w)
  {
    hide Mix, R32, CodeF, CodeConst;
    match k % 6
    case 0 => assert (k + 1) % 6 == 1;
    case 1 => assert (k + 1) % 6 == 2;
    case 2 => assert (k + 1) % 6 == 3;
    case 3 => assert (k + 1) % 6 == 4;
    case 4 => assert (k + 1) % 6 == 5;
    case _ => assert (k + 1) % 6 == 0;
  }

  /** After any number of steps the unravelled text has computed the same five
      words as the standard's rounds, whatever T held at the start. */
  lemma {:induction false} UnravelledAgrees(v: Vars, w: seq<Word>, k: nat)
    requires k <= 80 <= |w|
    ensures |UNRAVELLED| == 80 && WellFormed(UNRAVELLED)
    ensures Roles(Run(UNRAVELLED, v, w, k), k) == Rounds(w, Chain(v.A, v.B, v.C, v.D, v.E), k)
  {
    forall i | 0 <= i < 80 ensures UNRAVELLED[i] == MacroAt(i) { UnravelledText(i); }
    if k > 0 {
      UnravelledAgrees(v, w, k - 1);
      UnravelledText(k - 1);
      var u := Run(UNRAVELLED, v, w, k - 1);
      RolesAdvance(k - 1, u, w[k - 1]);
      PlainRound(k - 1, Roles(u, k - 1), w[k - 1]);
    }
  }

  /** The final additions of the unravelled build, which read E, T, A, B, C. */
  lemma UnravelledFinal(v: Vars, w: seq<Word>)
    requires |w| == 80
    ensures |UNRAVELLED| == 80 && WellFormed(UNRAVELLED)
    ensures var u := Run(UNRAVELLED, v, w, 80);
            Chain(u.E, u.T, u.A, u.B, u.C) == Rounds(w, Chain(v.A, v.B, v.C, v.D, v.E), 80)
  {
    hide Run, Rounds;
    UnravelledAgrees(v, w, 80);
  }
}
