/** The three forms in which the eighty rounds are written; all compute the rounds of the standard. */
module Sha1Rounds {
  import opened Bytes
  import opened Sha1Spec

  /** The function that the programs use in round `t`. */
  function F(t: nat, x: Word, y: Word, z: Word): Word {
    if t < 20 then F1(x, y, z) else if 40 <= t < 60 then F3(x, y, z) else Parity(x, y, z)
  }

  lemma FIsMix(t: nat, x: Word, y: Word, z: Word)
    ensures F(t, x, y, z) == Mix(t, x, y, z)
  {
    hide F1, F3, Ch, Maj, Parity;
    F1IsCh(x, y, z);
    F3IsMaj(x, y, z);
  }

  /** FG in its four loops, with the registers moved along in every round. */
  method GenericRounds(h: Hash, w: seq<Word>) returns (r: Hash)
    requires |w| == 80
    ensures r == Rounds(h, w, 80)
  {
    hide F1, F3, Mix, Parity, Rotl5, Rotl30, Add;
    var T: Word, A, B, C, D, E := 0, h.a, h.b, h.c, h.d, h.e;
    for i := 0 to 20
      invariant Hash(A, B, C, D, E) == Rounds(h, w, i)
    {
      FIsMix(i, B, C, D);
      T := Add(Rotl5(A) + F1(B, C, D) + E + w[i] + 0x5a827999);
      E := D;
      D := C;
      C := Rotl30(B);
      B := A;
      A := T;
    }
    for i := 20 to 40
      invariant Hash(A, B, C, D, E) == Rounds(h, w, i)
    {
      FIsMix(i, B, C, D);
      T := Add(Rotl5(A) + Parity(B, C, D) + E + w[i] + 0x6ed9eba1);
      E := D;
      D := C;
      C := Rotl30(B);
      B := A;
      A := T;
    }
    for i := 40 to 60
      invariant Hash(A, B, C, D, E) == Rounds(h, w, i)
    {
      FIsMix(i, B, C, D);
      T := Add(Rotl5(A) + F3(B, C, D) + E + w[i] + 0x8f1bbcdc);
      E := D;
      D := C;
      C := Rotl30(B);
      B := A;
      A := T;
    }
    for i := 60 to 80
      invariant Hash(A, B, C, D, E) == Rounds(h, w, i)
    {
      FIsMix(i, B, C, D);
      T := Add(Rotl5(A) + Parity(B, C, D) + E + w[i] + 0xca62c1d6);
      E := D;
      D := C;
      C := Rotl30(B);
      B := A;
      A := T;
    }
    r := Hash(A, B, C, D, E);
  }

  /** Which of the six registers hold the hash after `i` rounds of the unraveled form. */
  function Unraveled(i: nat, T: Word, A: Word, B: Word, C: Word, D: Word, E: Word): Hash {
    match i % 6
    case 0 => Hash(A, B, C, D, E)
    case 1 => Hash(T, A, B, C, D)
    case 2 => Hash(E, T, A, B, C)
    case 3 => Hash(D, E, T, A, B)
    case 4 => Hash(C, D, E, T, A)
    case _ => Hash(B, C, D, E, T)
  }

  /** FA, FB, FC, FD, FE and FT in turn: six registers whose parts rotate, so that none is moved. */
  method UnraveledRounds(h: Hash, w: seq<Word>) returns (r: Hash)
    requires |w| == 80
    ensures r == Rounds(h, w, 80)
  {
    hide F1, F3, F, Mix, Parity, Rotl5, Rotl30, Add, K;
    var T: Word, A, B, C, D, E := 0, h.a, h.b, h.c, h.d, h.e;
    var i := 0;
    while i < 80
      invariant i <= 80 && Unraveled(i, T, A, B, C, D, E) == Rounds(h, w, i)
    {
      ghost var now := Rounds(h, w, i);
      FIsMix(i, now.b, now.c, now.d);
      match i % 6 {
        case 0 =>
          T := Add(Rotl5(A) + F(i, B, C, D) + E + w[i] + K(i));
          B := Rotl30(B);
        case 1 =>
          E := Add(Rotl5(T) + F(i, A, B, C) + D + w[i] + K(i));
          A := Rotl30(A);
        case 2 =>
          D := Add(Rotl5(E) + F(i, T, A, B) + C + w[i] + K(i));
          T := Rotl30(T);
        case 3 =>
          C := Add(Rotl5(D) + F(i, E, T, A) + B + w[i] + K(i));
          E := Rotl30(E);
        case 4 =>
          B := Add(Rotl5(C) + F(i, D, E, T) + A + w[i] + K(i));
          D := Rotl30(D);
        case _ =>
          A := Add(Rotl5(B) + F(i, C, D, E) + T + w[i] + K(i));
          C := Rotl30(C);
      }
      i := i + 1;
    }
    r := Hash(E, T, A, B, C);
  }

  /** The form of the Java class: five steps in a turn, after which the registers are back in their places. */
  method FiveStepRounds(h: Hash, w: seq<Word>) returns (r: Hash)
    requires |w| == 80
    ensures r == Rounds(h, w, 80)
  {
    hide Rounds, Round;
    RoundsStart(h, w);
    r := h;
    var idx := 0;
    while idx < 80
      invariant idx <= 80 && idx % 5 == 0 && r == Rounds(h, w, idx)
    {
      RoundsStep(h, w, idx);
      RoundsStep(h, w, idx + 1);
      RoundsStep(h, w, idx + 2);
      RoundsStep(h, w, idx + 3);
      RoundsStep(h, w, idx + 4);
      r := FiveSteps(r, w, idx);
      idx := idx + 5;
    }
  }

  /** The body of the loops: each step writes one register and turns another. */
  method FiveSteps(h: Hash, w: seq<Word>, at: nat) returns (r: Hash)
    requires at + 5 <= |w|
    ensures var h1 := Round(at, h, w[at]);
            var h2 := Round(at + 1, h1, w[at + 1]);
            var h3 := Round(at + 2, h2, w[at + 2]);
            var h4 := Round(at + 3, h3, w[at + 3]);
            r == Round(at + 4, h4, w[at + 4])
  {
    hide F, Mix, Rotl5, Rotl30, Add, K;
    var A, B, C, D, E := h.a, h.b, h.c, h.d, h.e;
    var idx := at;
    FIsMix(idx, B, C, D);
    E := Add(E + Rotl5(A) + F(idx, B, C, D) + w[idx] + K(idx));
    B := Rotl30(B);
    idx := idx + 1;
    FIsMix(idx, A, B, C);
    D := Add(D + Rotl5(E) + F(idx, A, B, C) + w[idx] + K(idx));
    A := Rotl30(A);
    idx := idx + 1;
    FIsMix(idx, E, A, B);
    C := Add(C + Rotl5(D) + F(idx, E, A, B) + w[idx] + K(idx));
    E := Rotl30(E);
    idx := idx + 1;
    FIsMix(idx, D, E, A);
    B := Add(B + Rotl5(C) + F(idx, D, E, A) + w[idx] + K(idx));
    D := Rotl30(D);
    idx := idx + 1;
    FIsMix(idx, C, D, E);
    A := Add(A + Rotl5(B) + F(idx, C, D, E) + w[idx] + K(idx));
    C := Rotl30(C);
    r := Hash(A, B, C, D, E);
  }

  lemma RoundsStart(h: Hash, w: seq<Word>)
    ensures Rounds(h, w, 0) == h
  {
  }

  lemma RoundsStep(h: Hash, w: seq<Word>, t: nat)
    requires t < |w|
    ensures Rounds(h, w, t + 1) == Round(t, Rounds(h, w, t), w[t])
  {
  }
}
