/** The block function of chacha.c: twenty rounds, which lose nothing, and the input added back. */
module ChachaCore {
  import opened Bits
  import opened Chacha

  /** ROTL32 */
  function Rotl(v: Word, n: nat): Word
    requires 0 < n < 32
  {
    RotlFits(v, n);
    Or(Low(Shl(v, n), 32), Shr(v, 32 - n))
  }

  lemma RotlFits(v: Word, n: nat)
    requires 0 < n < 32
    ensures Or(Low(Shl(v, n), 32), Shr(v, 32 - n)) < TWO32
  {
    hide *;
    LowBit(Shl(v, n), 32, 0);
    WordFits(v);
    ShrFits(v, 32 - n, 32);
    OrFits(Low(Shl(v, n), 32), Shr(v, 32 - n), 32);
    WordFits(Or(Low(Shl(v, n), 32), Shr(v, 32 - n)));
  }

  lemma {:induction false} ShrFits(a: nat, k: nat, n: nat)
    requires Fits(a, n)
    ensures Fits(Shr(a, k), n)
    decreases k
  {
    if k > 0 {
      if n == 0 {
        ShrFits(a / 2, k - 1, 0);
      } else {
        FitsMore(a / 2, n - 1, n);
        ShrFits(a / 2, k - 1, n);
      }
    }
  }

  /** A rotation moves every bit up by n, those pushed out coming in at the bottom. */
  lemma RotlBit(v: Word, n: nat, m: nat)
    requires 0 < n < 32 && m < 32
    ensures Bit(Rotl(v, n), m) <==> Bit(v, if m < n then m + 32 - n else m - n)
  {
    hide Bit, Or, Low, Shl, Shr;
    OrBit(Low(Shl(v, n), 32), Shr(v, 32 - n), m);
    LowBit(Shl(v, n), 32, m);
    ShlBit(v, n, m);
    ShrBit(v, 32 - n, m);
    if m >= n {
      NoBitBeyond(v, 32 - n + m);
    }
  }

  lemma NoBitBeyond(v: Word, k: nat)
    requires k >= 32
    ensures !Bit(v, k)
  {
    WordFits(v);
    FitsBound(v, 32, k);
  }

  lemma RotateBack(v: Word, n: nat)
    requires 0 < n < 32
    ensures Rotl(Rotl(v, n), 32 - n) == v
  {
    hide Bit, Rotl;
    var w := Rotl(Rotl(v, n), 32 - n);
    forall m: nat | m < 32 ensures Bit(w, m) == Bit(v, m) {
      var k := if m < 32 - n then m + n else m - (32 - n);
      RotlBit(Rotl(v, n), 32 - n, m);
      RotlBit(v, n, k);
    }
    WordFits(v);
    WordFits(w);
    BitsDecide(w, v, 32);
  }

  lemma XorWordBack(a: Word, b: Word)
    ensures XorWord(XorWord(a, b), b) == a
  {
    hide Xor;
    WordFits(a);
    WordFits(b);
    XorCancels(a, b, 32);
  }

  function Minus(a: Word, b: Word): Word {
    (a - b) % TWO32
  }

  lemma PlusBack(a: Word, b: Word)
    ensures Minus(Plus(a, b), b) == a
  {
  }

  // ----- the two kinds of steps of QUARTERROUND, and their opposites

  predicate Two(i: nat, j: nat) {
    i < 16 && j < 16 && i != j
  }

  function Add(x: Input, i: nat, j: nat): Input
    requires Two(i, j)
  {
    x[i := Plus(x[i], x[j])]
  }

  function Subtract(x: Input, i: nat, j: nat): Input
    requires Two(i, j)
  {
    x[i := Minus(x[i], x[j])]
  }

  function Turn(x: Input, i: nat, j: nat, n: nat): Input
    requires Two(i, j) && 0 < n < 32
  {
    x[i := Rotl(XorWord(x[i], x[j]), n)]
  }

  function Return(x: Input, i: nat, j: nat, n: nat): Input
    requires Two(i, j) && 0 < n < 32
  {
    x[i := XorWord(Rotl(x[i], 32 - n), x[j])]
  }

  lemma AddBack(x: Input, i: nat, j: nat)
    requires Two(i, j)
    ensures Subtract(Add(x, i, j), i, j) == x
  {
    hide Plus, Minus;
    PlusBack(x[i], x[j]);
  }

  lemma TurnBack(x: Input, i: nat, j: nat, n: nat)
    requires Two(i, j) && 0 < n < 32
    ensures Return(Turn(x, i, j, n), i, j, n) == x
  {
    hide Rotl, XorWord;
    RotateBack(XorWord(x[i], x[j]), n);
    XorWordBack(x[i], x[j]);
  }

  // ----- rounds

  predicate Four(a: nat, b: nat, c: nat, d: nat) {
    Two(a, b) && Two(c, d) && Two(a, d) && Two(b, c)
  }

  function HalfQuarter(x: Input, a: nat, b: nat, c: nat, d: nat, m: nat, n: nat): Input
    requires Four(a, b, c, d) && 0 < m < 32 && 0 < n < 32
  {
    Turn(Add(Turn(Add(x, a, b), d, a, m), c, d), b, c, n)
  }

  /** QUARTERROUND */
  function QuarterRound(x: Input, a: nat, b: nat, c: nat, d: nat): Input
    requires Four(a, b, c, d)
  {
    HalfQuarter(HalfQuarter(x, a, b, c, d, 16, 12), a, b, c, d, 8, 7)
  }

  function UndoHalf(x: Input, a: nat, b: nat, c: nat, d: nat, m: nat, n: nat): Input
    requires Four(a, b, c, d) && 0 < m < 32 && 0 < n < 32
  {
    Subtract(Return(Subtract(Return(x, b, c, n), c, d), d, a, m), a, b)
  }

  function UndoQuarter(x: Input, a: nat, b: nat, c: nat, d: nat): Input
    requires Four(a, b, c, d)
  {
    UndoHalf(UndoHalf(x, a, b, c, d, 8, 7), a, b, c, d, 16, 12)
  }

  lemma HalfBack(x: Input, a: nat, b: nat, c: nat, d: nat, m: nat, n: nat)
    requires Four(a, b, c, d) && 0 < m < 32 && 0 < n < 32
    ensures UndoHalf(HalfQuarter(x, a, b, c, d, m, n), a, b, c, d, m, n) == x
  {
    hide Add, Subtract, Turn, Return;
    var x1 := Add(x, a, b);
    var x2 := Turn(x1, d, a, m);
    var x3 := Add(x2, c, d);
    AddBack(x, a, b);
    TurnBack(x1, d, a, m);
    AddBack(x2, c, d);
    TurnBack(x3, b, c, n);
  }

  /** A quarter round can be undone, whichever four words it works on. */
  lemma QuarterBack(x: Input, a: nat, b: nat, c: nat, d: nat)
    requires Four(a, b, c, d)
    ensures UndoQuarter(QuarterRound(x, a, b, c, d), a, b, c, d) == x
  {
    hide HalfQuarter, UndoHalf;
    HalfBack(x, a, b, c, d, 16, 12);
    HalfBack(HalfQuarter(x, a, b, c, d, 16, 12), a, b, c, d, 8, 7);
  }

  function ColumnRound(x: Input): Input {
    QuarterRound(QuarterRound(QuarterRound(QuarterRound(x, 0, 4, 8, 12), 1, 5, 9, 13), 2, 6, 10, 14), 3, 7, 11, 15)
  }

  function DiagonalRound(x: Input): Input {
    QuarterRound(QuarterRound(QuarterRound(QuarterRound(x, 0, 5, 10, 15), 1, 6, 11, 12), 2, 7, 8, 13), 3, 4, 9, 14)
  }

  /** A quarter round looks at its four words and changes no other. */
  lemma QuarterLocal(x: Input, y: Input, a: nat, b: nat, c: nat, d: nat)
    requires Four(a, b, c, d) && x[a] == y[a] && x[b] == y[b] && x[c] == y[c] && x[d] == y[d]
    ensures forall i | i in {a, b, c, d} :: QuarterRound(x, a, b, c, d)[i] == QuarterRound(y, a, b, c, d)[i]
    ensures forall i | 0 <= i < 16 && i !in {a, b, c, d} :: QuarterRound(x, a, b, c, d)[i] == x[i]
  {
    hide HalfQuarter;
    HalfLocal(x, y, a, b, c, d, 16, 12);
    HalfLocal(HalfQuarter(x, a, b, c, d, 16, 12), HalfQuarter(y, a, b, c, d, 16, 12), a, b, c, d, 8, 7);
  }

  lemma HalfLocal(x: Input, y: Input, a: nat, b: nat, c: nat, d: nat, m: nat, n: nat)
    requires Four(a, b, c, d) && x[a] == y[a] && x[b] == y[b] && x[c] == y[c] && x[d] == y[d]
    requires 0 < m < 32 && 0 < n < 32
    ensures forall i | i in {a, b, c, d} :: HalfQuarter(x, a, b, c, d, m, n)[i] == HalfQuarter(y, a, b, c, d, m, n)[i]
    ensures forall i | 0 <= i < 16 && i !in {a, b, c, d} :: HalfQuarter(x, a, b, c, d, m, n)[i] == x[i]
  {
    hide Rotl, XorWord, Plus;
  }

  function OnColumn(x: Input, q: nat): Input
    requires q < 4
  {
    QuarterRound(x, q, 4 + q, 8 + q, 12 + q)
  }

  function OnDiagonal(x: Input, q: nat): Input
    requires q < 4
  {
    QuarterRound(x, q, 4 + (q + 1) % 4, 8 + (q + 2) % 4, 12 + (q + 3) % 4)
  }

  /** A column round does a quarter round on each column of the four by four words. */
  lemma ColumnMeaning(x: Input, q: nat, i: nat)
    requires q < 4 && i < 16 && i in {q, 4 + q, 8 + q, 12 + q}
    ensures ColumnRound(x)[i] == OnColumn(x, q)[i]
  {
    hide QuarterRound;
    var x1 := QuarterRound(x, 0, 4, 8, 12);
    var x2 := QuarterRound(x1, 1, 5, 9, 13);
    var x3 := QuarterRound(x2, 2, 6, 10, 14);
    QuarterLocal(x, x, 0, 4, 8, 12);
    QuarterLocal(x1, x, 1, 5, 9, 13);
    QuarterLocal(x2, x, 2, 6, 10, 14);
    QuarterLocal(x3, x, 3, 7, 11, 15);
  }

  /** A diagonal round does one on each diagonal, each row one place further than the row above. */
  lemma DiagonalMeaning(x: Input, q: nat, i: nat)
    requires q < 4 && i < 16 && i in {q, 4 + (q + 1) % 4, 8 + (q + 2) % 4, 12 + (q + 3) % 4}
    ensures DiagonalRound(x)[i] == OnDiagonal(x, q)[i]
  {
    hide QuarterRound;
    var x1 := QuarterRound(x, 0, 5, 10, 15);
    var x2 := QuarterRound(x1, 1, 6, 11, 12);
    var x3 := QuarterRound(x2, 2, 7, 8, 13);
    QuarterLocal(x, x, 0, 5, 10, 15);
    QuarterLocal(x1, x, 1, 6, 11, 12);
    QuarterLocal(x2, x, 2, 7, 8, 13);
    QuarterLocal(x3, x, 3, 4, 9, 14);
  }

  function UndoColumn(x: Input): Input {
    UndoQuarter(UndoQuarter(UndoQuarter(UndoQuarter(x, 3, 7, 11, 15), 2, 6, 10, 14), 1, 5, 9, 13), 0, 4, 8, 12)
  }

  function UndoDiagonal(x: Input): Input {
    UndoQuarter(UndoQuarter(UndoQuarter(UndoQuarter(x, 3, 4, 9, 14), 2, 7, 8, 13), 1, 6, 11, 12), 0, 5, 10, 15)
  }

  lemma ColumnBack(x: Input)
    ensures UndoColumn(ColumnRound(x)) == x
  {
    hide QuarterRound, UndoQuarter;
    var x1 := QuarterRound(x, 0, 4, 8, 12);
    var x2 := QuarterRound(x1, 1, 5, 9, 13);
    var x3 := QuarterRound(x2, 2, 6, 10, 14);
    QuarterBack(x, 0, 4, 8, 12);
    QuarterBack(x1, 1, 5, 9, 13);
    QuarterBack(x2, 2, 6, 10, 14);
    QuarterBack(x3, 3, 7, 11, 15);
  }

  lemma DiagonalBack(x: Input)
    ensures UndoDiagonal(DiagonalRound(x)) == x
  {
    hide QuarterRound, UndoQuarter;
    var x1 := QuarterRound(x, 0, 5, 10, 15);
    var x2 := QuarterRound(x1, 1, 6, 11, 12);
    var x3 := QuarterRound(x2, 2, 7, 8, 13);
    QuarterBack(x, 0, 5, 10, 15);
    QuarterBack(x1, 1, 6, 11, 12);
    QuarterBack(x2, 2, 7, 8, 13);
    QuarterBack(x3, 3, 4, 9, 14);
  }

  function DoubleRound(x: Input): Input {
    DiagonalRound(ColumnRound(x))
  }

  function UndoDouble(x: Input): Input {
    UndoColumn(UndoDiagonal(x))
  }

  lemma DoubleBack(x: Input)
    ensures UndoDouble(DoubleRound(x)) == x
  {
    hide ColumnRound, DiagonalRound, UndoColumn, UndoDiagonal;
    DiagonalBack(ColumnRound(x));
    ColumnBack(x);
  }

  function DoubleRounds(x: Input, n: nat): Input
    decreases n
  {
    if n == 0 then x else DoubleRounds(DoubleRound(x), n - 1)
  }

  function UndoRounds(x: Input, n: nat): Input
    decreases n
  {
    if n == 0 then x else UndoDouble(UndoRounds(x, n - 1))
  }

  /** Any number of double rounds can be undone. */
  lemma {:induction false} RoundsBack(x: Input, n: nat)
    ensures UndoRounds(DoubleRounds(x, n), n) == x
    decreases n
  {
    hide DoubleRound, UndoDouble;
    if n > 0 {
      RoundsBack(DoubleRound(x), n - 1);
      DoubleBack(x);
    }
  }

  function TwentyRounds(x: Input): Input {
    var n := 10;
    DoubleRounds(x, n)
  }

  function AddWords(x: Input, y: Input): Input {
    seq(16, i requires 0 <= i < 16 => Plus(x[i], y[i]))
  }

  /** Twenty rounds, and the input added back word by word. */
  function Core(x: Input): Input {
    AddWords(TwentyRounds(x), x)
  }

  /** The rounds never merge two states. */
  lemma TwentyRoundsInjective(x: Input, y: Input)
    ensures TwentyRounds(x) == TwentyRounds(y) <==> x == y
  {
    hide DoubleRounds, UndoRounds;
    var n := 10;
    RoundsBack(x, n);
    RoundsBack(y, n);
  }

  lemma PlusCancels(a: Word, b: Word, c: Word)
    ensures Plus(a, c) == Plus(b, c) <==> a == b
  {
    PlusBack(a, c);
    PlusBack(b, c);
  }

  /** Where two inputs agree, adding them back neither hides nor makes a difference. */
  lemma CoreDiffers(x: Input, y: Input, i: nat)
    requires i < 16 && x[i] == y[i]
    ensures Core(x)[i] == Core(y)[i] <==> TwentyRounds(x)[i] == TwentyRounds(y)[i]
  {
    hide TwentyRounds, Plus;
    PlusCancels(TwentyRounds(x)[i], TwentyRounds(y)[i], x[i]);
  }
}
