/** Distress-signal packets: nested lists of integers, a tokenizer and a
    recursive-descent parser over a token queue, the mixed integer/list
    ordering, and the divider-packet counting. */
module Day13 {
  import opened Common

  datatype Packet = List(items: seq<Packet>) | Int(n: int)

  datatype Ordering = Less | Equal | Greater

  datatype Token = LParen | RParen | Comma | IntTok(value: int)

  function Flip(o: Ordering): (r: Ordering)
    ensures o == Less <==> r == Greater
    ensures o == Equal <==> r == Equal
  {
    match o
    case Less => Greater
    case Equal => Equal
    case Greater => Less
  }

  /** `i64::partial_cmp`. */
  function CmpInt(a: int, b: int): (o: Ordering)
    ensures o == Less <==> a < b
    ensures o == Equal <==> a == b
    ensures o == Greater <==> a > b
  {
    if a < b then Less else if a == b then Equal else Greater
  }

  /** A size that makes the comparison terminate: wrapping an integer in a
      one-element list keeps the size of the pair, and the comparison of the
      lists ranks below the comparison of packets. */
  function Size(p: Packet): (n: nat)
    ensures n >= 2
    decreases p, 1
  {
    match p
    case Int(_) => 2
    case List(xs) => 1 + SizeSeq(xs)
  }

  function SizeSeq(xs: seq<Packet>): (n: nat)
    ensures n >= 1
    ensures xs != [] ==> n == Size(xs[0]) + SizeSeq(xs[1..])
    decreases xs, 0
  {
    if xs == [] then 1 else Size(xs[0]) + SizeSeq(xs[1..])
  }

  /** Wrapping an integer in a list adds 1 to its size. */
  lemma SizeOfWrapped(num: int)
    ensures SizeSeq([Int(num)]) == Size(Int(num)) + 1
  {
    assert [Int(num)][1..] == [];
  }

  /** `Packet::eq`: the derived structural equality, in which an integer is
      never equal to a list. */
  predicate Eq(a: Packet, b: Packet)
    decreases a
  {
    match (a, b)
    case (List(l0), List(r0)) => |l0| == |r0| && forall i | 0 <= i < |l0| :: Eq(l0[i], r0[i])
    case (Int(l0), Int(r0)) => l0 == r0
    case _ => false
  }

  /** `Packet::partial_cmp`, which always returns an ordering: integers by
      value, lists lexicographically, and an integer against a list as the
      one-element list holding it. */
  function Cmp(a: Packet, b: Packet): Ordering
    decreases Size(a) + Size(b), 1
  {
    match (a, b)
    case (Int(l), Int(r)) => CmpInt(l, r)
    case (List(l), List(r)) => CmpLists(l, r)
    case (Int(num), List(r)) => SizeOfWrapped(num); CmpLists([Int(num)], r)
    case (List(l), Int(num)) => SizeOfWrapped(num); CmpLists(l, [Int(num)])
  }

  /** `Vec::partial_cmp`: the first unequal pair of elements decides;
      otherwise the shorter list is the smaller. */
  function CmpLists(xs: seq<Packet>, ys: seq<Packet>): Ordering
    decreases SizeSeq(xs) + SizeSeq(ys), 0
  {
    if xs == [] && ys == [] then Equal
    else if xs == [] then Less
    else if ys == [] then Greater
    else
      var c := Cmp(xs[0], ys[0]);
      if c != Equal then c else CmpLists(xs[1..], ys[1..])
  }

  /** `eq` is structural equality. */
  lemma {:induction false} EqIsEquality(a: Packet, b: Packet)
    ensures Eq(a, b) <==> a == b
    decreases a
  {
    match (a, b)
    case (List(l0), List(r0)) =>
      if |l0| == |r0| {
        forall i | 0 <= i < |l0|
          ensures Eq(l0[i], r0[i]) <==> l0[i] == r0[i]
        {
          EqIsEquality(l0[i], r0[i]);
        }
        if Eq(a, b) {
          assert l0 == r0;
        }
      }
    case _ =>
  }

  /** The ordering and the equality part ways: 2 and [2] compare as equal but
      are not equal. */
  lemma EqualButNotEq()
    ensures Cmp(Int(2), List([Int(2)])) == Equal
    ensures !Eq(Int(2), List([Int(2)]))
  {
    assert CmpLists([Int(2)], [Int(2)]) == Equal by {
      assert [Int(2)][1..] == [];
    }
  }

  /** Swapping the arguments reverses the ordering. */
  lemma {:induction false} CmpFlip(a: Packet, b: Packet)
    ensures Cmp(b, a) == Flip(Cmp(a, b))
    decreases Size(a) + Size(b), 1
  {
    match (a, b)
    case (Int(l), Int(r)) =>
    case (List(l), List(r)) => CmpListsFlip(l, r);
    case (Int(num), List(r)) =>
      SizeOfWrapped(num);
      CmpListsFlip([Int(num)], r);
    case (List(l), Int(num)) =>
      SizeOfWrapped(num);
      CmpListsFlip(l, [Int(num)]);
  }

  lemma {:induction false} CmpListsFlip(xs: seq<Packet>, ys: seq<Packet>)
    ensures CmpLists(ys, xs) == Flip(CmpLists(xs, ys))
    decreases SizeSeq(xs) + SizeSeq(ys), 0
  {
    if xs != [] && ys != [] {
      CmpFlip(xs[0], ys[0]);
      CmpListsFlip(xs[1..], ys[1..]);
    }
  }

  /** Every packet compares equal to itself. */
  lemma {:induction false} CmpReflexive(a: Packet)
    ensures Cmp(a, a) == Equal
    decreases Size(a) + Size(a), 1
  {
    if a.List? {
      CmpListsReflexive(a.items);
    }
  }

  lemma {:induction false} CmpListsReflexive(xs: seq<Packet>)
    ensures CmpLists(xs, xs) == Equal
    decreases SizeSeq(xs) + SizeSeq(xs), 0
  {
    if xs != [] {
      CmpReflexive(xs[0]);
      CmpListsReflexive(xs[1..]);
    }
  }

  /** A proper prefix is smaller. */
  lemma {:induction false} ProperPrefixIsLess(xs: seq<Packet>, ys: seq<Packet>)
    requires ys != []
    ensures CmpLists(xs, xs + ys) == Less
    decreases |xs|
  {
    if xs != [] {
      CmpReflexive(xs[0]);
      assert (xs + ys)[0] == xs[0];
      assert (xs + ys)[1..] == xs[1..] + ys;
      ProperPrefixIsLess(xs[1..], ys);
    }
  }

  // ---------------------------------------------------------------- tokenize

  /** The length of the run of ASCII digits at the start of `s`. */
  function DigitRun(s: string): (k: nat)
    ensures k <= |s|
    ensures forall i | 0 <= i < k :: IsDigit(s[i])
    ensures k < |s| ==> !IsDigit(s[k])
  {
    if s == [] || !IsDigit(s[0]) then 0 else 1 + DigitRun(s[1..])
  }

  /** `tokenize`: brackets and commas become tokens, a maximal run of digits
      becomes one integer token, and every other character is skipped. */
  function Tokenize(s: string): seq<Token>
    decreases |s|
  {
    if s == [] then []
    else if s[0] == '[' then [LParen] + Tokenize(s[1..])
    else if s[0] == ']' then [RParen] + Tokenize(s[1..])
    else if s[0] == ',' then [Comma] + Tokenize(s[1..])
    else if IsDigit(s[0]) then
      var k := DigitRun(s);
      [IntTok(DecimalValue(s[..k]))] + Tokenize(s[k..])
    else Tokenize(s[1..])
  }

  // ------------------------------------------------------------------- parse

  /** The parse of a token queue into a list that already holds `acc`: the
      items the list ends with, and the tokens left in the queue. A left
      bracket parses a sublist from the rest, a right bracket ends the list,
      a comma is skipped, an integer is appended; an empty queue ends the
      list too. */
  function ParseSeq(ts: seq<Token>, acc: seq<Packet>): (r: (seq<Packet>, seq<Token>))
    ensures |r.1| <= |ts|
    decreases |ts|
  {
    if ts == [] then (acc, [])
    else match ts[0]
      case LParen =>
        var (sub, rest) := ParseSeq(ts[1..], []);
        ParseSeq(rest, acc + [List(sub)])
      case RParen => (acc, ts[1..])
      case Comma => ParseSeq(ts[1..], acc)
      case IntTok(num) => ParseSeq(ts[1..], acc + [Int(num)])
  }

  /** The `VecDeque<Token>` that `parse` consumes from the front. */
  class TokenQueue {
    var tokens: seq<Token>

    constructor (ts: seq<Token>)
      ensures tokens == ts
    {
      tokens := ts;
    }

    /** `pop_front`. */
    method PopFront() returns (t: Option<Token>)
      modifies this
      ensures old(tokens) == [] ==> t == None && tokens == []
      ensures old(tokens) != [] ==> t == Some(old(tokens)[0]) && tokens == old(tokens)[1..]
    {
      if tokens == [] {
        t := None;
      } else {
        t := Some(tokens[0]);
        tokens := tokens[1..];
      }
    }
  }

  /** `parse`: pops tokens and pushes onto the target list in place; on an
      integer target the source panics, here `None`. The list built and the
      tokens left are those of `ParseSeq`. */
  method Parse(q: TokenQueue, packet: Packet) returns (result: Option<Packet>)
    modifies q
    ensures packet.Int? ==> result == None && q.tokens == old(q.tokens)
    ensures packet.List? ==>
      result == Some(List(ParseSeq(old(q.tokens), packet.items).0)) &&
      q.tokens == ParseSeq(old(q.tokens), packet.items).1
    decreases |q.tokens|
  {
    if packet.Int? {
      return None;
    }
    var list := packet.items;
    while true
      invariant |q.tokens| <= old(|q.tokens|)
      invariant ParseSeq(q.tokens, list) == ParseSeq(old(q.tokens), packet.items)
      decreases |q.tokens|
    {
      var token := q.PopFront();
      if token.None? {
        return Some(List(list));
      }
      match token.value {
        case LParen =>
          var sublist := Parse(q, List([]));
          list := list + [sublist.value];
        case RParen =>
          return Some(List(list));
        case Comma =>
        case IntTok(num) =>
          list := list + [Int(num)];
      }
    }
  }

  /** `tokenize_and_parse` as a value: the parse of the whole line into one
      outer list. */
  function ParsedLine(line: string): Packet
  {
    List(ParseSeq(Tokenize(line), []).0)
  }

  /** `tokenize_and_parse`. */
  method TokenizeAndParse(line: string) returns (root: Packet)
    ensures root == ParsedLine(line)
  {
    var q := new TokenQueue(Tokenize(line));
    var r := Parse(q, List([]));
    root := r.value;
  }

  // ------------------------------------------------------------ round trips

  /** The tokens of a packet as written out. */
  function Tokens(p: Packet): seq<Token>
    decreases p, 1
  {
    match p
    case Int(n) => [IntTok(n)]
    case List(xs) => [LParen] + TokensSeq(xs) + [RParen]
  }

  function TokensSeq(xs: seq<Packet>): seq<Token>
    decreases xs, 0
  {
    if xs == [] then []
    else if |xs| == 1 then Tokens(xs[0])
    else Tokens(xs[0]) + [Comma] + TokensSeq(xs[1..])
  }

  /** Parsing the tokens of a packet appends exactly that packet. */
  lemma {:induction false} ParseTokens(p: Packet, tail: seq<Token>, acc: seq<Packet>)
    ensures ParseSeq(Tokens(p) + tail, acc) == ParseSeq(tail, acc + [p])
    decreases p, 2
  {
    match p
    case Int(n) =>
      assert ([IntTok(n)] + tail)[1..] == tail;
    case List(xs) =>
      var ts := Tokens(p) + tail;
      assert ts[0] == LParen;
      assert ts[1..] == TokensSeq(xs) + ([RParen] + tail);
      ParseTokensSeq(xs, tail, []);
      assert [] + xs == xs;
      assert ParseSeq(ts[1..], []) == (xs, tail);
  }

  /** Parsing the tokens of the items and the closing bracket yields the
      items and leaves what follows the bracket. */
  lemma {:induction false} ParseTokensSeq(xs: seq<Packet>, tail: seq<Token>, acc: seq<Packet>)
    ensures ParseSeq(TokensSeq(xs) + ([RParen] + tail), acc) == (acc + xs, tail)
    decreases xs, 1
  {
    if xs == [] {
      assert TokensSeq(xs) + ([RParen] + tail) == [RParen] + tail;
      assert ([RParen] + tail)[1..] == tail;
      assert acc + xs == acc;
    } else if |xs| == 1 {
      ParseTokens(xs[0], [RParen] + tail, acc);
      assert ([RParen] + tail)[1..] == tail;
      assert acc + [xs[0]] == acc + xs;
    } else {
      ParseTokensSeqCons(xs, tail, acc);
    }
  }

  /** Two or more elements: the first one, a comma, then the rest. */
  lemma {:induction false} ParseTokensSeqCons(xs: seq<Packet>, tail: seq<Token>, acc: seq<Packet>)
    requires |xs| >= 2
    ensures ParseSeq(TokensSeq(xs) + ([RParen] + tail), acc) == (acc + xs, tail)
    decreases xs, 0
  {
    var rest := TokensSeq(xs[1..]) + ([RParen] + tail);
    assert TokensSeq(xs) + ([RParen] + tail) == Tokens(xs[0]) + ([Comma] + rest);
    ParseTokens(xs[0], [Comma] + rest, acc);
    assert ([Comma] + rest)[1..] == rest;
    ParseTokensSeq(xs[1..], tail, acc + [xs[0]]);
    assert acc + [xs[0]] + xs[1..] == acc + xs;
  }


  /** Every integer is non-negative, as the digit runs of the input are. */
  predicate NonNegative(p: Packet)
  {
    match p
    case Int(n) => n >= 0
    case List(xs) => forall i | 0 <= i < |xs| :: NonNegative(xs[i])
  }

  /** The decimal digits of `n`, most significant first. */
  function DecimalString(n: nat): (s: string)
    ensures s != [] && AllDigits(s)
    ensures DecimalValue(s) == n
  {
    var d := ['0' + (n % 10) as char];
    if n < 10 then d
    else
      var s := DecimalString(n / 10) + d;
      assert s[..|s| - 1] == DecimalString(n / 10);
      s
  }

  /** A packet written out as in the puzzle input. */
  function Render(p: Packet): string
    requires NonNegative(p)
    decreases p, 1
  {
    match p
    case Int(n) => DecimalString(n)
    case List(xs) => "[" + RenderSeq(xs) + "]"
  }

  function RenderSeq(xs: seq<Packet>): string
    requires forall i | 0 <= i < |xs| :: NonNegative(xs[i])
    decreases xs, 0
  {
    if xs == [] then ""
    else if |xs| == 1 then Render(xs[0])
    else Render(xs[0]) + "," + RenderSeq(xs[1..])
  }

  predicate StartsWithNonDigit(t: string)
  {
    t == [] || !IsDigit(t[0])
  }

  lemma TokenizeNumber(n: nat, t: string)
    requires StartsWithNonDigit(t)
    ensures Tokenize(DecimalString(n) + t) == [IntTok(n)] + Tokenize(t)
  {
    var ds := DecimalString(n);
    var s := ds + t;
    assert IsDigit(s[0]);
    DigitRunOfDigits(ds, t);
    assert s[..|ds|] == ds;
    assert s[|ds|..] == t;
  }

  lemma {:induction false} DigitRunOfDigits(ds: string, t: string)
    requires AllDigits(ds) && StartsWithNonDigit(t)
    ensures DigitRun(ds + t) == |ds|
  {
    if ds != [] {
      assert (ds + t)[1..] == ds[1..] + t;
      DigitRunOfDigits(ds[1..], t);
    } else {
      assert ds + t == t;
    }
  }

  /** The tokenizer reads a written-out packet back as its tokens. */
  lemma {:induction false} TokenizeRender(p: Packet, t: string)
    requires NonNegative(p) && StartsWithNonDigit(t)
    ensures Tokenize(Render(p) + t) == Tokens(p) + Tokenize(t)
    decreases p, 2
  {
    match p
    case Int(n) => TokenizeNumber(n, t);
    case List(xs) =>
      var s := Render(p) + t;
      var inner := RenderSeq(xs) + ("]" + t);
      assert s == "[" + inner;
      assert s[1..] == inner;
      TokenizeRenderSeq(xs, "]" + t);
      var u := "]" + t;
      assert u[1..] == t;
      assert Tokenize(u) == [RParen] + Tokenize(t);
  }

  lemma {:induction false} TokenizeRenderSeq(xs: seq<Packet>, t: string)
    requires forall i | 0 <= i < |xs| :: NonNegative(xs[i])
    requires StartsWithNonDigit(t)
    ensures Tokenize(RenderSeq(xs) + t) == TokensSeq(xs) + Tokenize(t)
    decreases xs, 1
  {
    if xs == [] {
      assert RenderSeq(xs) + t == t;
    } else if |xs| == 1 {
      TokenizeRender(xs[0], t);
    } else {
      TokenizeRenderSeqCons(xs, t);
    }
  }

  /** Two or more elements: the first one, a comma, then the rest. */
  lemma {:induction false} TokenizeRenderSeqCons(xs: seq<Packet>, t: string)
    requires |xs| >= 2 && forall i | 0 <= i < |xs| :: NonNegative(xs[i])
    requires StartsWithNonDigit(t)
    ensures Tokenize(RenderSeq(xs) + t) == TokensSeq(xs) + Tokenize(t)
    decreases xs, 0
  {
    var rest := RenderSeq(xs[1..]) + t;
    var u := "," + rest;
    assert u[1..] == rest;
    calc {
      Tokenize(RenderSeq(xs) + t);
      { assert RenderSeq(xs) + t == Render(xs[0]) + u; }
      Tokenize(Render(xs[0]) + u);
      { TokenizeRender(xs[0], u); }
      Tokens(xs[0]) + Tokenize(u);
      Tokens(xs[0]) + ([Comma] + Tokenize(rest));
      { TokenizeRenderSeq(xs[1..], t); }
      Tokens(xs[0]) + ([Comma] + (TokensSeq(xs[1..]) + Tokenize(t)));
      (Tokens(xs[0]) + [Comma] + TokensSeq(xs[1..])) + Tokenize(t);
      TokensSeq(xs) + Tokenize(t);
    }
  }


  /** `tokenize_and_parse` of a written-out packet gives the packet back,
      wrapped in the one extra outer list. */
  lemma RenderRoundTrip(p: Packet)
    requires NonNegative(p)
    ensures ParsedLine(Render(p)) == List([p])
  {
    TokenizeRender(p, "");
    assert Render(p) + "" == Render(p);
    assert Tokens(p) + [] == Tokens(p);
    ParseTokens(p, [], []);
  }

  // ------------------------------------------------------------------- solve

  /** `[[2]]` and `[[6]]` after `tokenize_and_parse`, outer list included. */
  function Divider(n: int): Packet
  {
    List([List([List([Int(n)])])])
  }

  lemma DividersParsed()
    ensures ParsedLine("[[2]]") == Divider(2)
    ensures ParsedLine("[[6]]") == Divider(6)
  {
    RenderRoundTrip(List([List([Int(2)])]));
    RenderRoundTrip(List([List([Int(6)])]));
    RenderBracketed(2);
    RenderBracketed(6);
  }

  lemma RenderBracketed(d: nat)
    requires d < 10
    ensures Render(List([List([Int(d)])])) == ['[', '[', '0' + d as char, ']', ']']
  {
    assert DecimalString(d) == ['0' + d as char];
    assert RenderSeq([Int(d)]) == Render(Int(d));
    assert RenderSeq([List([Int(d)])]) == Render(List([Int(d)]));
  }

  /** `a <= b` through `partial_cmp`: less or equal. */
  predicate InRightOrder(a: Packet, b: Packet)
  {
    Cmp(a, b) != Greater
  }

  /** The sum of the 1-based indices of the pairs in the right order. */
  function RightOrderSum(pairs: seq<(Packet, Packet)>): int
  {
    if pairs == [] then 0
    else
      var last := pairs[|pairs| - 1];
      RightOrderSum(pairs[..|pairs| - 1]) + (if InRightOrder(last.0, last.1) then |pairs| else 0)
  }

  /** How many packets of the pairs fall below the first divider `d1`, and
      how many fall between it and the second divider `d2`. */
  function BelowFirst(p: Packet, d1: Packet): nat
  {
    if Cmp(p, d1) == Less then 1 else 0
  }

  function BetweenDividers(p: Packet, d1: Packet, d2: Packet): nat
  {
    if Cmp(p, d1) != Less && Cmp(p, d2) == Less then 1 else 0
  }

  function CountBelow(pairs: seq<(Packet, Packet)>, d1: Packet): nat
  {
    if pairs == [] then 0
    else
      var last := pairs[|pairs| - 1];
      CountBelow(pairs[..|pairs| - 1], d1) + BelowFirst(last.0, d1) + BelowFirst(last.1, d1)
  }

  function CountBetween(pairs: seq<(Packet, Packet)>, d1: Packet, d2: Packet): nat
  {
    if pairs == [] then 0
    else
      var last := pairs[|pairs| - 1];
      CountBetween(pairs[..|pairs| - 1], d1, d2) + BetweenDividers(last.0, d1, d2) + BetweenDividers(last.1, d1, d2)
  }

  /** The parsed pairs of the complete groups of three lines. */
  function Pairs(lines: seq<string>): (pairs: seq<(Packet, Packet)>)
    ensures |pairs| == |lines| / 3
    ensures forall k | 0 <= k < |pairs| ::
      pairs[k] == (ParsedLine(lines[3 * k]), ParsedLine(lines[3 * k + 1]))
  {
    if |lines| < 3 then []
    else [(ParsedLine(lines[0]), ParsedLine(lines[1]))] + Pairs(lines[3..])
  }

  /** The loop of `solve` over the groups of three lines: the index sum of the
      pairs in the right order, and the two divider counts, where a packet
      below `d1` is not also counted between the dividers. */
  method CountPairs(lines: seq<string>, d1: Packet, d2: Packet) returns (p1: int, smallerThan1: nat, between1And2: nat)
    ensures p1 == RightOrderSum(Pairs(lines))
    ensures smallerThan1 == CountBelow(Pairs(lines), d1)
    ensures between1And2 == CountBetween(Pairs(lines), d1, d2)
  {
    var pairs := Pairs(lines);
    p1 := 0;
    var index := 1;
    smallerThan1 := 0;
    between1And2 := 0;
    for k := 0 to |pairs|
      invariant index == k + 1
      invariant p1 == RightOrderSum(pairs[..k])
      invariant smallerThan1 == CountBelow(pairs[..k], d1)
      invariant between1And2 == CountBetween(pairs[..k], d1, d2)
    {
      var packetA := TokenizeAndParse(lines[3 * k]);
      var packetB := TokenizeAndParse(lines[3 * k + 1]);
      assert pairs[k] == (packetA, packetB);
      CountsStep(pairs, k, d1, d2);
      if Cmp(packetA, packetB) != Greater {
        p1 := p1 + index;
      }
      var belowA, betweenA := Classify(packetA, d1, d2);
      var belowB, betweenB := Classify(packetB, d1, d2);
      smallerThan1 := smallerThan1 + belowA + belowB;
      between1And2 := between1And2 + betweenA + betweenB;
      index := index + 1;
    }
    assert pairs[..|pairs|] == pairs;
  }

  /** One packet's part in the divider counts: below the first divider, else
      below the second. */
  method Classify(p: Packet, d1: Packet, d2: Packet) returns (below: nat, between: nat)
    ensures below == BelowFirst(p, d1) && between == BetweenDividers(p, d1, d2)
    ensures below + between <= 1
  {
    below, between := 0, 0;
    if Cmp(p, d1) == Less {
      below := 1;
    } else if Cmp(p, d2) == Less {
      between := 1;
    }
  }

  /** One more pair adds its own terms to the three running counts. */
  lemma CountsStep(pairs: seq<(Packet, Packet)>, k: nat, d1: Packet, d2: Packet)
    requires k < |pairs|
    ensures var (a, b) := pairs[k];
      RightOrderSum(pairs[..k + 1]) == RightOrderSum(pairs[..k]) + (if InRightOrder(a, b) then k + 1 else 0) &&
      CountBelow(pairs[..k + 1], d1) == CountBelow(pairs[..k], d1) + BelowFirst(a, d1) + BelowFirst(b, d1) &&
      CountBetween(pairs[..k + 1], d1, d2) == CountBetween(pairs[..k], d1, d2) + BetweenDividers(a, d1, d2) + BetweenDividers(b, d1, d2)
  {
    var pre := pairs[..k + 1];
    assert pre[..k] == pairs[..k] && pre[k] == pairs[k];
  }

  /** The product of the two divider positions in the sorted list: the first
      follows the packets below it, the second follows the first and the
      packets between the two. */
  function DecoderKey(below: nat, between: nat): (key: nat)
    ensures key >= (below + 1) * (below + 1)
  {
    var dividerIndex1 := below + 1;
    var dividerIndex2 := dividerIndex1 + between + 1;
    dividerIndex1 * dividerIndex2
  }

  /** The two divider packets, parsed as `solve` parses them. */
  method ParseDividers() returns (divider1: Packet, divider2: Packet)
    ensures divider1 == Divider(2) && divider2 == Divider(6)
  {
    divider1 := TokenizeAndParse("[[2]]");
    divider2 := TokenizeAndParse("[[6]]");
    DividersParsed();
  }

  /** `solve`: part 1 and the product of the two divider positions. */
  method Solve(lines: seq<string>) returns (p1: int, p2: int)
    ensures p1 == RightOrderSum(Pairs(lines))
    ensures p2 == DecoderKey(CountBelow(Pairs(lines), Divider(2)), CountBetween(Pairs(lines), Divider(2), Divider(6)))
  {
    var divider1, divider2 := ParseDividers();
    var smallerThan1, between1And2;
    p1, smallerThan1, between1And2 := CountPairs(lines, divider1, divider2);
    p2 := DecoderKey(smallerThan1, between1And2);
  }
}
