/**
 The escape sequence recogniser of ansiesc.c.
 */
module AnsiEsc {
  import opened Words

  // ANSIESC_MAX_PARAMS
  const MAX_PARAMS := 5

  const ESC := 0x1b
  const BRACKET := 0x5b
  const SEMICOLON := 0x3b
  const QUESTION := 0x3f
  const ZERO := 0x30

  /** The context: the number of parameters so far, zero outside a sequence; the
      parameters, negative if omitted; and the control function identifier. */
  datatype State = State(count: int, params: seq<int>, code: int)

  /** A character passed through, one swallowed, or a completed sequence. */
  datatype Event = Normal(c: int) | Swallowed | Call(code: int, count: int, params: seq<int>)

  ghost predicate Valid(x: State) {
    0 <= x.count <= MAX_PARAMS && |x.params| == MAX_PARAMS
  }

  // A 32-bit signed integer
  function Int32(n: int): int {
    var m := n % 0x1_0000_0000;
    if m >= 0x8000_0000 then m - 0x1_0000_0000 else m
  }

  function Omitted(): seq<int> {
    seq(MAX_PARAMS, _ => -1)
  }

  predicate IsDigit(c: int) {
    ZERO <= c <= ZERO + 9
  }

  predicate IsIntermediate(c: int) {
    0x20 <= c <= 0x2f || c == QUESTION
  }

  function WithDigit(param: int, c: int): int {
    Int32((if param < 0 then 0 else param) * 10 + (c - ZERO))
  }

  // ( code << 8 ) | c, as unsigned integers
  function WithByte(code: int, c: int): int {
    Or(code * 256 % 0x1_0000_0000, c % 0x1_0000_0000)
  }

  // ansiesc_process()
  function Step(x: State, c: int): (State, Event) {
    if x.count <= 0 then
      if c == ESC then (State(1, Omitted(), 0), Swallowed) else (x, Normal(c))
    else if c == BRACKET then (x, Swallowed)
    else if IsDigit(c) then
      if x.count <= |x.params|
      then (x.(params := x.params[x.count - 1 := WithDigit(x.params[x.count - 1], c)]), Swallowed)
      else (x, Swallowed)
    else if c == SEMICOLON then
      (x.(count := if x.count + 1 > MAX_PARAMS then 0 else x.count + 1), Swallowed)
    else if IsIntermediate(c) then (x.(code := WithByte(x.code, c)), Swallowed)
    else (x.(count := 0, code := WithByte(x.code, c)), Call(WithByte(x.code, c), x.count, x.params))
  }

  class Context {
    var count: int
    var params: array<int>
    var code: int

    ghost function Abs(): State
      reads this, params
    {
      State(count, params[..], code)
    }

    ghost predicate Ok()
      reads this, params
    {
      Valid(Abs())
    }

    constructor ()
      ensures Ok() && count == 0 && fresh(params)
    {
      count, code := 0, 0;
      params := new int[MAX_PARAMS](_ => -1);
    }

    // The array is never written outside its bounds.
    method Process(c: int) returns (event: Event)
      requires Ok()
      modifies this, params
      ensures Ok() && params == old(params)
      ensures (Abs(), event) == Step(old(Abs()), c)
    {
      event := Swallowed;
      if count == 0 {
        if c == ESC {
          count := 1;
          for i := 0 to MAX_PARAMS
            invariant params == old(params) && params.Length == MAX_PARAMS && count == 1
            invariant forall j :: 0 <= j < i ==> params[j] == -1
          {
            params[i] := -1;
          }
          assert params[..] == Omitted();
          code := 0;
        } else {
          event := Normal(c);
        }
      } else if c == BRACKET {
      } else if IsDigit(c) {
        var param := params[count - 1];
        if param < 0 {
          param := 0;
        }
        params[count - 1] := Int32(param * 10 + (c - ZERO));
      } else if c == SEMICOLON {
        count := count + 1;
        if count > MAX_PARAMS {
          count := 0;
        }
      } else if IsIntermediate(c) {
        code := WithByte(code, c);
      } else {
        var parameters := count;
        count := 0;
        code := WithByte(code, c);
        event := Call(code, parameters, params[..]);
      }
    }
  }

  lemma StepKeeps(x: State, c: int)
    requires Valid(x)
    ensures Valid(Step(x, c).0)
    ensures Step(x, c).1.Call? ==> 1 <= Step(x, c).1.count <= MAX_PARAMS && |Step(x, c).1.params| == MAX_PARAMS
  {
  }

  // ---- What a sequence means ----------------------------------------------

  function Feed(x: State, s: seq<int>): State {
    if s == [] then x else Step(Feed(x, s[..|s| - 1]), s[|s| - 1]).0
  }

  // The event that each character causes
  function Events(x: State, s: seq<int>): (events: seq<Event>)
    ensures |events| == |s|
  {
    if s == [] then []
    else Events(x, s[..|s| - 1]) + [Step(Feed(x, s[..|s| - 1]), s[|s| - 1]).1]
  }

  // All of the characters are swallowed, and lead to this context.
  ghost predicate Reads(x: State, s: seq<int>, y: State) {
    Feed(x, s) == y && forall i :: 0 <= i < |s| ==> Events(x, s)[i] == Swallowed
  }

  lemma {:induction false} FeedConcat(x: State, s: seq<int>, t: seq<int>)
    ensures Feed(x, s + t) == Feed(Feed(x, s), t)
    ensures Events(x, s + t) == Events(x, s) + Events(Feed(x, s), t)
    decreases |t|
  {
    if t == [] {
      assert s + t == s;
    } else {
      var front := t[..|t| - 1];
      assert (s + t)[..|s + t| - 1] == s + front;
      FeedConcat(x, s, front);
    }
  }

  lemma ReadsConcat(x: State, s: seq<int>, y: State, t: seq<int>, z: State)
    requires Reads(x, s, y) && Reads(y, t, z)
    ensures Reads(x, s + t, z)
  {
    hide Feed, Events;
    FeedConcat(x, s, t);
  }

  lemma ReadsOne(x: State, c: int)
    requires Step(x, c).1 == Swallowed
    ensures Reads(x, [c], Step(x, c).0)
  {
    assert [c][..0] == [];
  }

  // The decimal digits of n.
  function Decimal(n: nat): seq<int> {
    if n < 10 then [ZERO + n] else Decimal(n / 10) + [ZERO + n % 10]
  }

  lemma DigitRead(n: nat)
    requires 10 <= n < 0x8000_0000
    ensures WithDigit(n / 10, ZERO + n % 10) == n && IsDigit(ZERO + n % 10)
  {
  }

  // The digits of a number are read back as that number.
  lemma {:induction false} DigitsRead(x: State, n: nat)
    requires Valid(x) && x.count >= 1 && x.params[x.count - 1] < 0 && n < 0x8000_0000
    ensures Reads(x, Decimal(n), x.(params := x.params[x.count - 1 := n]))
  {
    hide Reads;
    if n < 10 {
      ReadsOne(x, ZERO + n);
    } else {
      DigitRead(n);
      var y := x.(params := x.params[x.count - 1 := n / 10]);
      var z := x.(params := x.params[x.count - 1 := n]);
      DigitsRead(x, n / 10);
      ReadsOne(y, ZERO + n % 10);
      assert y.params[x.count - 1 := n] == z.params;
      ReadsConcat(x, Decimal(n / 10), y, [ZERO + n % 10], z);
    }
  }

  // A parameter, nothing if it is to be omitted
  function Field(p: int): seq<int> {
    if p < 0 then [] else Decimal(p)
  }

  lemma FieldRead(x: State, p: int)
    requires Valid(x) && x.count >= 1 && x.params[x.count - 1] == -1 && -1 <= p < 0x8000_0000
    ensures Reads(x, Field(p), x.(params := x.params[x.count - 1 := p]))
  {
    if p >= 0 {
      DigitsRead(x, p);
    } else {
      assert x.params[x.count - 1 := p] == x.params;
    }
  }

  // Parameters with separators between them
  function Joined(ps: seq<int>): seq<int>
    requires ps != []
  {
    if |ps| == 1 then Field(ps[0]) else Field(ps[0]) + [SEMICOLON] + Joined(ps[1..])
  }

  ghost predicate Parameters(ps: seq<int>) {
    1 <= |ps| <= MAX_PARAMS && forall i :: 0 <= i < |ps| ==> -1 <= ps[i] < 0x8000_0000
  }

  function Padded(before: seq<int>, ps: seq<int>): seq<int> {
    before + ps + if |before| + |ps| <= MAX_PARAMS then Omitted()[|before| + |ps|..] else []
  }

  lemma {:induction false} JoinedRead(x: State, before: seq<int>, ps: seq<int>)
    requires Parameters(ps) && |before| + |ps| <= MAX_PARAMS
    requires x.count == |before| + 1 && x.params == Padded(before, [])
    ensures Reads(x, Joined(ps), State(|before| + |ps|, Padded(before, ps), x.code))
    decreases |ps|
  {
    hide Reads, Field;
    var n := |before|;
    assert x.params[n] == -1;
    var y := x.(params := x.params[n := ps[0]]);
    FieldRead(x, ps[0]);
    assert y.params == Padded(before + [ps[0]], []);
    if |ps| == 1 {
      assert y.params == Padded(before, ps);
    } else {
      var z := y.(count := n + 2);
      assert Step(y, SEMICOLON) == (z, Swallowed);
      ReadsOne(y, SEMICOLON);
      ReadsConcat(x, Field(ps[0]), y, [SEMICOLON], z);
      JoinedRead(z, before + [ps[0]], ps[1..]);
      assert before + [ps[0]] + ps[1..] == before + ps;
      ReadsConcat(x, Field(ps[0]) + [SEMICOLON], z, Joined(ps[1..]),
                  State(n + |ps|, Padded(before, ps), x.code));
    }
  }

  // The identifier of a control function, byte by byte
  function Identifier(code: int, marks: seq<int>): int
    decreases |marks|
  {
    if marks == [] then code else Identifier(WithByte(code, marks[0]), marks[1..])
  }

  ghost predicate Marks(marks: seq<int>) {
    forall i :: 0 <= i < |marks| ==> IsIntermediate(marks[i])
  }

  lemma {:induction false} MarksRead(x: State, marks: seq<int>)
    requires Marks(marks) && x.count >= 1
    ensures Reads(x, marks, x.(code := Identifier(x.code, marks)))
    decreases |marks|
  {
    hide Reads, WithByte;
    if marks == [] {
      ReadsNone(x);
    } else {
      var y := x.(code := WithByte(x.code, marks[0]));
      ReadsOne(x, marks[0]);
      MarksRead(y, marks[1..]);
      ReadsConcat(x, [marks[0]], y, marks[1..], x.(code := Identifier(x.code, marks)));
      assert [marks[0]] + marks[1..] == marks;
    }
  }

  lemma ReadsNone(x: State)
    ensures Reads(x, [], x)
  {
  }

  // ESC [ marks p ; ... ; p
  function Opening(marks: seq<int>, ps: seq<int>): seq<int>
    requires ps != []
  {
    [ESC, BRACKET] + marks + Joined(ps)
  }

  lemma OpeningRead(x: State, marks: seq<int>, ps: seq<int>)
    requires x.count == 0 && Marks(marks) && Parameters(ps)
    ensures Reads(x, Opening(marks, ps), State(|ps|, Padded([], ps), Identifier(0, marks)))
  {
    hide Reads, Joined, Identifier;
    var a := State(1, Omitted(), 0);
    var b := a.(code := Identifier(0, marks));
    ReadsOne(x, ESC);
    ReadsOne(a, BRACKET);
    ReadsConcat(x, [ESC], a, [BRACKET], a);
    assert [ESC] + [BRACKET] == [ESC, BRACKET];
    MarksRead(a, marks);
    ReadsConcat(x, [ESC, BRACKET], a, marks, b);
    assert Padded([], []) == Omitted();
    JoinedRead(b, [], ps);
    ReadsConcat(x, [ESC, BRACKET] + marks, b, Joined(ps), State(|ps|, Padded([], ps), b.code));
  }

  predicate IsFinal(c: int) {
    c != BRACKET && !IsDigit(c) && c != SEMICOLON && !IsIntermediate(c)
  }

  // A sequence sent between sequences calls its handler with exactly its
  // parameters, once, at its last byte; no character of it is passed through.
  lemma SequenceRead(x: State, marks: seq<int>, ps: seq<int>, final: int)
    requires x.count == 0 && Marks(marks) && Parameters(ps) && IsFinal(final)
    ensures var s := Opening(marks, ps);
            var last := Call(WithByte(Identifier(0, marks), final), |ps|, Padded([], ps));
            && (forall i :: 0 <= i < |s| ==> Events(x, s + [final])[i] == Swallowed)
            && Events(x, s + [final])[|s|] == last
            && Feed(x, s + [final]).count == 0
  {
    hide Opening, Padded, Identifier, WithByte;
    var s := Opening(marks, ps);
    OpeningRead(x, marks, ps);
    assert (s + [final])[..|s|] == s;
    assert Events(x, s + [final]) == Events(x, s) + [Step(Feed(x, s), final).1];
  }

  // One more separator than the array has room for ends the sequence without a
  // call, and the characters that follow are ordinary ones.
  lemma TooManyParameters(x: State, marks: seq<int>, ps: seq<int>)
    requires x.count == 0 && Marks(marks) && Parameters(ps) && |ps| == MAX_PARAMS
    ensures Feed(x, Opening(marks, ps) + [SEMICOLON]).count == 0
    ensures var s := Opening(marks, ps) + [SEMICOLON];
            forall i :: 0 <= i < |s| ==> Events(x, s)[i] == Swallowed
  {
    hide Opening, Padded, Identifier;
    var s := Opening(marks, ps);
    OpeningRead(x, marks, ps);
    ReadsOne(State(|ps|, Padded([], ps), Identifier(0, marks)), SEMICOLON);
    ReadsConcat(x, s, Feed(x, s), [SEMICOLON], Step(Feed(x, s), SEMICOLON).0);
  }

  // For character codes, a byte is added below the others.
  lemma ByteAdded(code: nat, c: int)
    requires 0 <= c < 256
    ensures WithByte(code, c) == (code * 256) % 0x1_0000_0000 + c
  {
    hide Or;
    ModMod(code * 256, 0x1_0000_0000, 256);
    MultipleMod(code, 256);
    OrBelow(code * 256 % 0x1_0000_0000, c);
  }
}
