/** The predicate chain that Record::Seek and Record::Next evaluate against
    every frame of the record's type (Record::processSeek, Record.cpp:487-890).

    A chain is a sequence of terms. A term names a field of the scan buffer
    (an offset and a width), the field's C++ type, an operand written as text,
    a comparison and the connective (AND / OR) that joins it to the NEXT term.
    Evaluation threads two member variables through the chain, LastOpResult and
    LastAndOr; `State` is the pair. The per-type comparisons are pure and are
    lifted into `Evaluate`; `Step` is one call of processSeek and `Fold` the
    whole chain. */
module Predicates {
  import opened Bytes
  import opened Optional

  datatype OpResult = True | False | Null

  /** The connective stored in a term, applied between it and the next one.
      `NoJoin` is AndOr::Null, the value the scan resets LastAndOr to. */
  datatype AndOr = NoJoin | And | Or

  /** The six relational operators; `Invalid` stands for any other value of
      the enumeration, which processSeek reports as an invalid operator. */
  datatype Comp = Equal | NotEqual | Greater | Smaller | GreaterEq | SmallerEq | Invalid

  /** The C++ type of the field a term reads (the typeid tests of processSeek).
      `CharKind` covers char, signed char and unsigned char, which the source
      compares alike; `CharArray` is char[n]; `EnumKind` carries the enum's
      qualifier, the part of its type name after "enum ". */
  datatype Kind =
    | BoolKind | CharKind
    | Short | Int | Long | LongLong
    | UShort | UInt | ULong | ULongLong
    | CharArray
    | EnumKind(qualifier: Name)
    | Unsupported

  /** One recKey: field offset and width (`sz`) in the scan buffer, the field's
      type, the operand text, the comparison and the connective. */
  datatype Term = Term(offset: nat, width: nat, kind: Kind, operand: Name, comp: Comp, andOr: AndOr)

  /** LastOpResult and LastAndOr. */
  datatype State = State(last: OpResult, join: AndOr)

  /** What one term's comparison yields: a truth value; no value (bool with an
      ordering operator, an invalid operator, an unsupported type); an enum
      constant the resolver does not know; or an exception from std::stoll. */
  datatype Eval = Value(b: bool) | NoValue | Unresolved | Throws

  /** The chain ran to its end, or a term threw; either way the member
      variables hold `st`. */
  datatype Outcome = Done(st: State) | Thrown(st: State)

  /** GetEnumValue: the value of a qualified enum constant such as "Color::Red".
      It is defined outside this model and is passed in. */
  type Resolver = Name -> int

  const Int64Min: int := -0x8000_0000_0000_0000
  const Int64Max: int := 0x7FFF_FFFF_FFFF_FFFF

  function OfBool(b: bool): OpResult {
    if b then True else False
  }

  // ---------------------------------------------------------------------
  // std::stoll: base 10, leading white space skipped, an optional sign, at
  // least one digit; parsing stops at the first non-digit. No digit raises
  // invalid_argument and a value outside long long raises out_of_range; both
  // are `None` here.

  predicate IsSpace(c: byte) {
    c == 32 || 9 <= c <= 13
  }

  predicate IsDigit(c: byte) {
    48 <= c <= 57
  }

  /** The number of leading white-space bytes. */
  function SpaceRun(s: Name): (n: nat)
    ensures n <= |s|
    ensures forall i :: 0 <= i < n ==> IsSpace(s[i])
    ensures n < |s| ==> !IsSpace(s[n])
  {
    if s == [] || !IsSpace(s[0]) then 0 else 1 + SpaceRun(s[1..])
  }

  /** The number of leading digits. */
  function DigitRun(s: Name): (n: nat)
    ensures n <= |s|
    ensures forall i :: 0 <= i < n ==> IsDigit(s[i])
    ensures n < |s| ==> !IsDigit(s[n])
  {
    if s == [] || !IsDigit(s[0]) then 0 else 1 + DigitRun(s[1..])
  }

  /** The value of a run of decimal digits, most significant first. */
  function DigitsValue(ds: Name): nat
    requires forall i :: 0 <= i < |ds| ==> IsDigit(ds[i])
  {
    if ds == [] then 0
    else
      var d: int := ds[|ds| - 1];
      assert IsDigit(ds[|ds| - 1]);
      10 * DigitsValue(ds[..|ds| - 1]) + (d - 48)
  }

  function Stoll(s: Name): (r: Option<int>)
    ensures r.Some? ==> Int64Min <= r.value <= Int64Max
  {
    var i := SpaceRun(s);
    var neg := i < |s| && s[i] == 45;
    var j := if i < |s| && (s[i] == 43 || s[i] == 45) then i + 1 else i;
    var n := DigitRun(s[j..]);
    if n == 0 then None
    else
      var mag := DigitsValue(s[j..][..n]);
      var v: int := if neg then 0 - mag else mag;
      if Int64Min <= v <= Int64Max then Some(v) else None
  }

  /** The decimal text of a natural number, as std::to_string writes it. */
  function Digits(n: nat): (ds: Name)
    ensures |ds| >= 1
    ensures forall i :: 0 <= i < |ds| ==> IsDigit(ds[i])
  {
    if n < 10 then [48 + n] else Digits(n / 10) + [48 + n % 10]
  }

  function Decimal(v: int): Name {
    if v < 0 then [45] + Digits(-v) else Digits(v)
  }

  lemma {:induction false} DigitsValueOfDigits(n: nat)
    ensures DigitsValue(Digits(n)) == n
  {
    if n >= 10 {
      var ds := Digits(n);
      assert ds[..|ds| - 1] == Digits(n / 10);
      DigitsValueOfDigits(n / 10);
    }
  }

  lemma DigitRunOfDigits(ds: Name)
    requires forall i :: 0 <= i < |ds| ==> IsDigit(ds[i])
    ensures DigitRun(ds) == |ds|
  {
  }

  /** Round trip: std::stoll reads back every long long from its decimal text. */
  lemma StollDecimal(v: int)
    requires Int64Min <= v <= Int64Max
    ensures Stoll(Decimal(v)) == Some(v)
  {
    var s := Decimal(v);
    var ds := Digits(if v < 0 then -v else v);
    assert SpaceRun(s) == 0 by {
      assert !IsSpace(s[0]);
    }
    var j := if v < 0 then 1 else 0;
    assert s[j..] == ds;
    DigitRunOfDigits(ds);
    assert ds[..|ds|] == ds;
    DigitsValueOfDigits(if v < 0 then -v else v);
  }

  /** An operand with no digit at all makes std::stoll throw. */
  lemma StollNeedsADigit(s: Name)
    requires forall i :: 0 <= i < |s| ==> !IsDigit(s[i])
    ensures Stoll(s).None?
  {
  }

  // ---------------------------------------------------------------------
  // Field readers

  /** A byte read through `char`, which is signed on the x86 build. */
  function CharValue(b: byte): int {
    if b < 128 then b else b - 256
  }

  /** sizeof the field type a term reads with memcpy. */
  function SizeOf(k: Kind): nat {
    match k
    case Short => 2
    case Int => 4
    case Long => 8
    case LongLong => 8
    case UShort => 2
    case UInt => 4
    case ULong => 8
    case ULongLong => 8
    case EnumKind(_) => 4
    case _ => 1
  }

  predicate IsSignedWide(k: Kind) {
    k.Short? || k.Int? || k.Long? || k.LongLong? || k.UShort? || k.UInt? || k.ULong?
  }

  /** The field's value after it is copied into its own type and converted to
      signed long long: unsigned long values from 2^63 up wrap to negatives. */
  function WideValue(k: Kind, bs: seq<byte>): (v: int)
    requires IsSignedWide(k) && |bs| == SizeOf(k)
    ensures Int64Min <= v <= Int64Max
  {
    Pow256Values();
    if k.UShort? || k.UInt? then LeNat(bs) else LeInt(bs)
  }

  /** std::tolower over every byte: only the letters A-Z change. */
  function Lower(s: Name): (t: Name)
    ensures |t| == |s|
    ensures forall i :: 0 <= i < |t| ==> !(65 <= t[i] <= 90)
    ensures forall i :: 0 <= i < |s| ==> t[i] == s[i] || (65 <= s[i] <= 90 && t[i] == s[i] + 32)
  {
    seq(|s|, i requires 0 <= i < |s| => if 65 <= s[i] <= 90 then s[i] + 32 else s[i])
  }

  /** Every space removed, wherever it stands. */
  function RemoveSpaces(s: Name): (t: Name)
    ensures |t| <= |s|
    ensures forall i :: 0 <= i < |t| ==> t[i] != 32
  {
    if s == [] then [] else (if s[0] == 32 then [] else [s[0]]) + RemoveSpaces(s[1..])
  }

  /** std::string's operator<: byte-wise as unsigned char, a proper prefix
      first. */
  predicate LexLess(a: Name, b: Name)
    ensures a < b ==> LexLess(a, b)
  {
    if a == [] then b != []
    else if b == [] then false
    else a[0] < b[0] || (a[0] == b[0] && LexLess(a[1..], b[1..]))
  }

  /** std::string's ordering is a strict total order: exactly one of
      a < b, a == b, b < a holds. */
  lemma {:induction false} LexTrichotomy(a: Name, b: Name)
    ensures LexLess(a, b) || a == b || LexLess(b, a)
    ensures !(LexLess(a, b) && LexLess(b, a))
    ensures a == b ==> !LexLess(a, b)
  {
    if a != [] && b != [] {
      LexTrichotomy(a[1..], b[1..]);
      if a[0] == b[0] && a[1..] == b[1..] {
        assert a == [a[0]] + a[1..] && b == [b[0]] + b[1..];
      }
    }
  }

  // ---------------------------------------------------------------------
  // Comparisons

  /** The outcome of comparison `c` between a left and a right value, given
      whether left < right and whether they are equal; `None` for an invalid
      operator. */
  function Decide(c: Comp, lt: bool, eq: bool): Option<bool> {
    match c
    case Equal => Some(eq)
    case NotEqual => Some(!eq)
    case Greater => Some(!lt && !eq)
    case Smaller => Some(lt)
    case GreaterEq => Some(!lt || eq)
    case SmallerEq => Some(lt || eq)
    case Invalid => None
  }

  /** What the relational operator means on integers. */
  predicate Rel(c: Comp, x: int, y: int) {
    match c
    case Equal => x == y
    case NotEqual => x != y
    case Greater => x > y
    case Smaller => x < y
    case GreaterEq => x >= y
    case SmallerEq => x <= y
    case Invalid => false
  }

  /** On integers `Decide` is the operator itself. */
  lemma DecideIsRel(c: Comp, x: int, y: int)
    requires c != Invalid
    ensures Decide(c, x < y, x == y) == Some(Rel(c, x, y))
  {
  }

  function AsEval(r: Option<bool>): Eval {
    if r.Some? then Value(r.value) else NoValue
  }

  /** The bytes the term reads, and the term's own demands on the buffer: its
      recKey was built for a field of this record type. A char[n] field holds
      a NUL within its n bytes, since std::string is built from it as a C
      string. */
  predicate TermFits(t: Term, buf: seq<byte>) {
    match t.kind
    case BoolKind => t.offset < |buf|
    case CharKind => t.offset < |buf|
    case CharArray =>
      1 <= t.width && t.offset + t.width <= |buf| && 0 in buf[t.offset..t.offset + t.width]
    case Unsupported => true
    case _ => t.width == SizeOf(t.kind) && t.offset + t.width <= |buf|
  }

  predicate ChainFits(chain: seq<Term>, buf: seq<byte>) {
    forall i :: 0 <= i < |chain| ==> TermFits(chain[i], buf)
  }

  const TrueText: Name := [116, 114, 117, 101]
  const FalseText: Name := [102, 97, 108, 115, 101]
  const OneText: Name := [49]
  const ZeroText: Name := [48]
  /** "::" */
  const ScopeText: Name := [58, 58]

  /** One term's comparison against the scan buffer. */
  function Evaluate(t: Term, buf: seq<byte>, resolve: Resolver): (e: Eval)
    requires TermFits(t, buf)
    ensures t.comp == Invalid ==> e.NoValue? || e.Throws? || e.Unresolved?
    ensures t.kind.Unsupported? ==> e.NoValue?
  {
    match t.kind
    case BoolKind =>
      var v := Lower(t.operand);
      var f := buf[t.offset];
      var matched := ((v == TrueText || v == OneText) && f == 1) || ((v == FalseText || v == ZeroText) && f == 0);
      if t.comp == Equal then Value(matched)
      else if t.comp == NotEqual then Value(!matched)
      else NoValue
    case CharKind =>
      var o := CharValue(if t.operand == [] then 0 else t.operand[0]);
      var f := CharValue(buf[t.offset]);
      AsEval(Decide(t.comp, o < f, o == f))
    case ULongLong =>
      var val := LeNat(buf[t.offset..t.offset + 8]);
      var key := Stoll(t.operand);
      if key.None? then Throws
      else
        var k := if key.value < 0 then key.value + Pow256(8) else key.value;
        AsEval(Decide(t.comp, val < k, val == k))
    case CharArray =>
      var val := RemoveSpaces(CString(buf[t.offset..t.offset + t.width]));
      var key := RemoveSpaces(t.operand);
      AsEval(Decide(t.comp, LexLess(val, key), val == key))
    case EnumKind(q) =>
      var key := resolve(q + ScopeText + t.operand) % Pow256(4);
      if key == Pow256(4) - 1 then Unresolved
      else
        var val := LeNat(buf[t.offset..t.offset + 4]);
        AsEval(Decide(t.comp, val < key, val == key))
    case Unsupported => NoValue
    case _ =>
      var val := WideValue(t.kind, buf[t.offset..t.offset + t.width]);
      var key := Stoll(t.operand);
      if key.None? then Throws
      else AsEval(Decide(t.comp, val < key.value, val == key.value))
  }

  // ---------------------------------------------------------------------
  // The chain

  /** One call of processSeek, with the caller's assignment of its result to
      LastOpResult. A term after a TRUE joined by OR, or after a FALSE joined
      by AND, is not evaluated. */
  function Step(st: State, t: Term, buf: seq<byte>, resolve: Resolver): (o: Outcome)
    requires TermFits(t, buf)
    ensures o.Thrown? ==> o.st == st
    ensures o.Done? && o.st.last != st.last ==> o.st.last != Null && o.st.join == t.andOr
  {
    if st.last == True && st.join == Or then Done(State(True, t.andOr))
    else if st.last == False && st.join == And then Done(State(False, t.andOr))
    else
      match Evaluate(t, buf, resolve)
      case Value(b) => Done(State(OfBool(b), t.andOr))
      case NoValue => Done(State(st.last, t.andOr))
      case Unresolved => Done(st)
      case Throws => Thrown(st)
  }

  /** The chain evaluated term by term from `st`. Only a term that throws
      ends it early. */
  function Fold(st: State, chain: seq<Term>, buf: seq<byte>, resolve: Resolver): (o: Outcome)
    requires ChainFits(chain, buf)
    ensures (forall i :: 0 <= i < |chain| ==> !Evaluate(chain[i], buf, resolve).Throws?) ==> o.Done?
    decreases |chain|
  {
    if chain == [] then Done(st)
    else
      match Step(st, chain[0], buf, resolve)
      case Thrown(s) => Thrown(s)
      case Done(s) => Fold(s, chain[1..], buf, resolve)
  }

  /** The member variables as the scan sets them before each frame. */
  const Start: State := State(Null, NoJoin)

  /** A frame matches the chain when no term throws and the final
      LastOpResult is TRUE. */
  predicate Matches(chain: seq<Term>, buf: seq<byte>, resolve: Resolver)
    requires ChainFits(chain, buf)
    ensures Matches(chain, buf, resolve) ==>
      exists i :: 0 <= i < |chain| && Evaluate(chain[i], buf, resolve) == Value(true)
  {
    FoldTrueNeedsTrueTerm(Start, chain, buf, resolve);
    var o := Fold(Start, chain, buf, resolve);
    o.Done? && o.st.last == True
  }

  /** LastOpResult becomes TRUE only through a term that compares TRUE. */
  lemma {:induction false} FoldTrueNeedsTrueTerm(st: State, chain: seq<Term>, buf: seq<byte>, resolve: Resolver)
    requires ChainFits(chain, buf)
    ensures var o := Fold(st, chain, buf, resolve);
      o.Done? && o.st.last == True ==>
        st.last == True || exists i :: 0 <= i < |chain| && Evaluate(chain[i], buf, resolve) == Value(true)
    decreases |chain|
  {
    if chain != [] {
      var o := Step(st, chain[0], buf, resolve);
      if o.Done? {
        assert ChainFits(chain[1..], buf) by {
          forall i | 0 <= i < |chain[1..]|
            ensures TermFits(chain[1..][i], buf)
          {
            assert chain[1..][i] == chain[i + 1];
          }
        }
        FoldTrueNeedsTrueTerm(o.st, chain[1..], buf, resolve);
        var r := Fold(st, chain, buf, resolve);
        if r.Done? && r.st.last == True && st.last != True && o.st.last == True {
          assert Evaluate(chain[0], buf, resolve) == Value(true);
        }
        forall i | 0 <= i < |chain[1..]| && Evaluate(chain[1..][i], buf, resolve) == Value(true)
          ensures Evaluate(chain[i + 1], buf, resolve) == Value(true)
        {
          assert chain[1..][i] == chain[i + 1];
        }
      }
    }
  }

  // ---------------------------------------------------------------------
  // What the chain means

  /** Every term compares to a truth value. */
  predicate Definite(chain: seq<Term>, buf: seq<byte>, resolve: Resolver)
    requires ChainFits(chain, buf)
  {
    forall i :: 0 <= i < |chain| ==> Evaluate(chain[i], buf, resolve).Value?
  }

  function Combine(acc: bool, join: AndOr, b: bool): bool {
    match join
    case And => acc && b
    case Or => acc || b
    case NoJoin => b
  }

  /** ((t1 op1 t2) op2 t3) ...: the left-associative reading of a definite
      chain, with no precedence between AND and OR. */
  function LeftFold(acc: bool, join: AndOr, chain: seq<Term>, buf: seq<byte>, resolve: Resolver): bool
    requires ChainFits(chain, buf) && Definite(chain, buf, resolve)
    decreases |chain|
  {
    if chain == [] then acc
    else LeftFold(Combine(acc, join, Evaluate(chain[0], buf, resolve).b), chain[0].andOr, chain[1..], buf, resolve)
  }

  lemma {:induction false} FoldIsLeftFold(acc: bool, join: AndOr, chain: seq<Term>, buf: seq<byte>, resolve: Resolver)
    requires ChainFits(chain, buf) && Definite(chain, buf, resolve)
    ensures Fold(State(OfBool(acc), join), chain, buf, resolve) ==
      Done(State(OfBool(LeftFold(acc, join, chain, buf, resolve)), if chain == [] then join else chain[|chain| - 1].andOr))
    decreases |chain|
  {
    if chain != [] {
      var t := chain[0];
      var b := Evaluate(t, buf, resolve).b;
      assert Step(State(OfBool(acc), join), t, buf, resolve) == Done(State(OfBool(Combine(acc, join, b)), t.andOr));
      assert ChainFits(chain[1..], buf) && Definite(chain[1..], buf, resolve) by {
        forall i | 0 <= i < |chain[1..]|
          ensures TermFits(chain[1..][i], buf) && Evaluate(chain[1..][i], buf, resolve).Value?
        {
          assert chain[1..][i] == chain[i + 1];
        }
      }
      FoldIsLeftFold(Combine(acc, join, b), t.andOr, chain[1..], buf, resolve);
    }
  }

  /** Over a definite chain, a frame matches exactly when the left-associative
      reading of the chain is true. */
  lemma MatchesIsLeftFold(chain: seq<Term>, buf: seq<byte>, resolve: Resolver)
    requires chain != [] && ChainFits(chain, buf) && Definite(chain, buf, resolve)
    ensures Matches(chain, buf, resolve) <==>
      LeftFold(Evaluate(chain[0], buf, resolve).b, chain[0].andOr, chain[1..], buf, resolve)
  {
    var t := chain[0];
    var b := Evaluate(t, buf, resolve).b;
    assert Step(Start, t, buf, resolve) == Done(State(OfBool(b), t.andOr));
    assert ChainFits(chain[1..], buf) && Definite(chain[1..], buf, resolve) by {
      forall i | 0 <= i < |chain[1..]|
        ensures TermFits(chain[1..][i], buf) && Evaluate(chain[1..][i], buf, resolve).Value?
      {
        assert chain[1..][i] == chain[i + 1];
      }
    }
    FoldIsLeftFold(b, t.andOr, chain[1..], buf, resolve);
  }

  /** A term that throws ends the chain, wherever it stands, unless the term
      before it settled the skip. */
  lemma ThrowEndsChain(st: State, t: Term, rest: seq<Term>, buf: seq<byte>, resolve: Resolver)
    requires TermFits(t, buf) && ChainFits(rest, buf)
    requires Evaluate(t, buf, resolve).Throws?
    requires !(st.last == True && st.join == Or) && !(st.last == False && st.join == And)
    ensures ChainFits([t] + rest, buf) && Fold(st, [t] + rest, buf, resolve) == Thrown(st)
  {
    assert forall i :: 0 < i < |[t] + rest| ==> ([t] + rest)[i] == rest[i - 1];
    assert ([t] + rest)[0] == t;
  }

  // ---------------------------------------------------------------------
  // What each comparison means

  /** char, signed char and unsigned char compare the operand's first byte
      (NUL for an empty operand), on the LEFT, against the field, both read as
      signed char. */
  lemma CharComparesOperandToField(t: Term, buf: seq<byte>, resolve: Resolver)
    requires t.kind.CharKind? && TermFits(t, buf) && t.comp != Invalid
    ensures Evaluate(t, buf, resolve) ==
      Value(Rel(t.comp, CharValue(if t.operand == [] then 0 else t.operand[0]), CharValue(buf[t.offset])))
  {
  }

  /** The integer types compare the field, on the LEFT, against the operand
      as std::stoll reads it, and throw when it cannot. */
  lemma IntegerComparesFieldToOperand(t: Term, buf: seq<byte>, resolve: Resolver)
    requires IsSignedWide(t.kind) && TermFits(t, buf) && t.comp != Invalid
    ensures Stoll(t.operand).None? ==> Evaluate(t, buf, resolve) == Throws
    ensures Stoll(t.operand).Some? ==> (Evaluate(t, buf, resolve) ==
      Value(Rel(t.comp, WideValue(t.kind, buf[t.offset..t.offset + t.width]), Stoll(t.operand).value)))
  {
  }

  /** unsigned long long compares the field as an unsigned value against the
      operand reduced modulo 2^64. */
  lemma ULongLongComparesUnsigned(t: Term, buf: seq<byte>, resolve: Resolver)
    requires t.kind.ULongLong? && TermFits(t, buf) && t.comp != Invalid
    ensures Stoll(t.operand).None? ==> Evaluate(t, buf, resolve) == Throws
    ensures Stoll(t.operand).Some? ==> (Evaluate(t, buf, resolve) ==
      Value(Rel(t.comp, LeNat(buf[t.offset..t.offset + 8]), Stoll(t.operand).value % Pow256(8))))
  {
    Pow256Values();
    var key := Stoll(t.operand);
    if key.Some? {
      var k := if key.value < 0 then key.value + Pow256(8) else key.value;
      assert k == key.value % Pow256(8);
    }
  }

  /** The text order with `Greater` meaning "the key sorts first". */
  predicate TextRel(c: Comp, x: Name, y: Name) {
    match c
    case Equal => x == y
    case NotEqual => x != y
    case Greater => LexLess(y, x)
    case Smaller => LexLess(x, y)
    case GreaterEq => LexLess(y, x) || x == y
    case SmallerEq => LexLess(x, y) || x == y
    case Invalid => false
  }

  /** char[n] compares the field's C string with every space removed against
      the operand with every space removed, in std::string's order. */
  lemma CharArrayComparesText(t: Term, buf: seq<byte>, resolve: Resolver)
    requires t.kind.CharArray? && TermFits(t, buf) && t.comp != Invalid
    ensures Evaluate(t, buf, resolve) == Value(TextRel(t.comp,
      RemoveSpaces(CString(buf[t.offset..t.offset + t.width])), RemoveSpaces(t.operand)))
  {
    LexTrichotomy(RemoveSpaces(CString(buf[t.offset..t.offset + t.width])), RemoveSpaces(t.operand));
  }

  /** An enum constant resolves to 0xFFFFFFFF exactly when the term yields no
      comparison at all; otherwise the field compares as unsigned int. */
  lemma EnumComparesResolvedValue(t: Term, buf: seq<byte>, resolve: Resolver)
    requires t.kind.EnumKind? && TermFits(t, buf) && t.comp != Invalid
    ensures var key := resolve(t.kind.qualifier + ScopeText + t.operand) % 0x1_0000_0000;
      && (key == 0xFFFF_FFFF <==> Evaluate(t, buf, resolve).Unresolved?)
      && (key != 0xFFFF_FFFF ==> Evaluate(t, buf, resolve) == Value(Rel(t.comp, LeNat(buf[t.offset..t.offset + 4]), key)))
  {
    Pow256Values();
  }

  /** bool: "true" or "1" in any letter case asks for a field byte 1, "false"
      or "0" for a field byte 0, any other spelling matches nothing, and so
      does a field byte other than 0 or 1; NotEqual is the negation; the
      ordering operators yield nothing. */
  lemma BoolMatchesSpelling(t: Term, buf: seq<byte>, resolve: Resolver)
    requires t.kind.BoolKind? && TermFits(t, buf)
    ensures var v, f, eq := Lower(t.operand), buf[t.offset], Evaluate(t.(comp := Equal), buf, resolve);
      && (v == TrueText || v == OneText ==> eq == Value(f == 1))
      && (v == FalseText || v == ZeroText ==> eq == Value(f == 0))
      && (v != TrueText && v != OneText && v != FalseText && v != ZeroText ==> eq == Value(false))
      && (f != 0 && f != 1 ==> eq == Value(false))
      && Evaluate(t.(comp := NotEqual), buf, resolve) == Negated(eq)
      && (t.comp != Equal && t.comp != NotEqual ==> Evaluate(t, buf, resolve) == NoValue)
  {
  }

  function Negated(e: Eval): Eval {
    if e.Value? then Value(!e.b) else e
  }

  /** For every field type, NotEqual yields exactly the negation of Equal, and
      throws, fails to resolve or yields nothing exactly when Equal does. */
  lemma NotEqualNegatesEqual(t: Term, buf: seq<byte>, resolve: Resolver)
    requires TermFits(t, buf) && t.comp == Equal
    ensures Evaluate(t.(comp := NotEqual), buf, resolve) == Negated(Evaluate(t, buf, resolve))
  {
    if t.kind.BoolKind? || t.kind.CharKind? || t.kind.Unsupported? {
      NotEqualNegatesEqualOnByte(t, buf, resolve);
    } else if t.kind.CharArray? {
      NotEqualNegatesEqualOnText(t, buf, resolve);
    } else if t.kind.EnumKind? {
      NotEqualNegatesEqualOnEnum(t, buf, resolve);
    } else {
      NotEqualNegatesEqualOnInteger(t, buf, resolve);
    }
  }

  lemma NotEqualNegatesEqualOnByte(t: Term, buf: seq<byte>, resolve: Resolver)
    requires TermFits(t, buf) && t.comp == Equal
    requires t.kind.BoolKind? || t.kind.CharKind? || t.kind.Unsupported?
    ensures Evaluate(t.(comp := NotEqual), buf, resolve) == Negated(Evaluate(t, buf, resolve))
  {
    if t.kind.CharKind? {
      var o := CharValue(if t.operand == [] then 0 else t.operand[0]);
      var f := CharValue(buf[t.offset]);
      assert Evaluate(t.(comp := NotEqual), buf, resolve) == Value(o != f);
    }
  }

  lemma NotEqualNegatesEqualOnText(t: Term, buf: seq<byte>, resolve: Resolver)
    requires TermFits(t, buf) && t.comp == Equal
    requires t.kind.CharArray?
    ensures Evaluate(t.(comp := NotEqual), buf, resolve) == Negated(Evaluate(t, buf, resolve))
  {
    var t' := t.(comp := NotEqual);
    assert t'.kind.CharArray? && t'.offset == t.offset && t'.width == t.width && t'.operand == t.operand;
    var val, key := RemoveSpaces(CString(buf[t.offset..t.offset + t.width])), RemoveSpaces(t.operand);
    assert Evaluate(t, buf, resolve) == Value(val == key);
    assert Evaluate(t', buf, resolve) == Value(val != key);
  }

  lemma NotEqualNegatesEqualOnEnum(t: Term, buf: seq<byte>, resolve: Resolver)
    requires TermFits(t, buf) && t.comp == Equal && t.kind.EnumKind?
    ensures Evaluate(t.(comp := NotEqual), buf, resolve) == Negated(Evaluate(t, buf, resolve))
  {
  }

  lemma NotEqualNegatesEqualOnInteger(t: Term, buf: seq<byte>, resolve: Resolver)
    requires TermFits(t, buf) && t.comp == Equal
    requires !(t.kind.BoolKind? || t.kind.CharKind? || t.kind.Unsupported? || t.kind.CharArray? || t.kind.EnumKind?)
    ensures Evaluate(t.(comp := NotEqual), buf, resolve) == Negated(Evaluate(t, buf, resolve))
  {
  }

  // ---------------------------------------------------------------------
  // Skipping

  /** A TRUE joined by OR settles the next term without evaluating it, even a
      term that would throw. */
  lemma OrSkipsNextTerm(t1: Term, t2: Term, buf: seq<byte>, resolve: Resolver)
    requires TermFits(t1, buf) && TermFits(t2, buf)
    requires Evaluate(t1, buf, resolve) == Value(true) && t1.andOr == Or
    ensures ChainFits([t1, t2], buf) && Fold(Start, [t1, t2], buf, resolve) == Done(State(True, t2.andOr))
  {
    var s1 := State(True, Or);
    assert Step(Start, t1, buf, resolve) == Done(s1);
    assert Step(s1, t2, buf, resolve) == Done(State(True, t2.andOr));
    assert [t1, t2][1..] == [t2] && [t2][1..] == [];
    assert Fold(s1, [t2], buf, resolve) == Done(State(True, t2.andOr));
  }

  /** A FALSE joined by AND settles the next term without evaluating it. */
  lemma AndSkipsNextTerm(t1: Term, t2: Term, buf: seq<byte>, resolve: Resolver)
    requires TermFits(t1, buf) && TermFits(t2, buf)
    requires Evaluate(t1, buf, resolve) == Value(false) && t1.andOr == And
    ensures ChainFits([t1, t2], buf) && Fold(Start, [t1, t2], buf, resolve) == Done(State(False, t2.andOr))
  {
    var s1 := State(False, And);
    assert Step(Start, t1, buf, resolve) == Done(s1);
    assert Step(s1, t2, buf, resolve) == Done(State(False, t2.andOr));
    assert [t1, t2][1..] == [t2] && [t2][1..] == [];
    assert Fold(s1, [t2], buf, resolve) == Done(State(False, t2.andOr));
  }

  /** The skip reaches only the next term: "a OR b AND c" with a TRUE and b, c
      FALSE reads as (a OR b) AND c, which is FALSE. A TRUE joined by OR does
      not settle the whole chain. */
  lemma NoChainWideShortCircuit()
    ensures var buf: seq<byte> := [1];
      var a := Term(0, 1, BoolKind, OneText, Equal, Or);
      var b := Term(0, 1, BoolKind, ZeroText, Equal, And);
      var c := Term(0, 1, BoolKind, ZeroText, Equal, NoJoin);
      var r: Resolver := _ => 0;
      && ChainFits([a, b, c], buf)
      && Evaluate(a, buf, r) == Value(true)
      && !Matches([a, b, c], buf, r)
  {
    var buf: seq<byte> := [1];
    var a := Term(0, 1, BoolKind, OneText, Equal, Or);
    var b := Term(0, 1, BoolKind, ZeroText, Equal, And);
    var c := Term(0, 1, BoolKind, ZeroText, Equal, NoJoin);
    var r: Resolver := _ => 0;
    assert Lower(OneText) == OneText;
    assert Lower(ZeroText) == ZeroText;
    var s1 := State(True, Or);
    assert Step(Start, a, buf, r) == Done(s1);
    var s2 := State(True, And);
    assert Step(s1, b, buf, r) == Done(s2);
    assert Step(s2, c, buf, r) == Done(State(False, NoJoin));
    assert [a, b, c][1..] == [b, c] && [b, c][1..] == [c] && [c][1..] == [];
    assert Fold(State(False, NoJoin), [], buf, r) == Done(State(False, NoJoin));
    assert Fold(s2, [c], buf, r) == Done(State(False, NoJoin));
    assert Fold(s1, [b, c], buf, r) == Done(State(False, NoJoin));
    assert Fold(Start, [a, b, c], buf, r) == Done(State(False, NoJoin));
  }
}
