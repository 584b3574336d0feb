/** The add-on modules of a driver: their categories, the register index of
    each module, the decode of the connected bitfield into module names
    (SMD-java/red.java:749-786), the parsing of module names into per-category
    masks (SMD-java/red.java:788-863), and the value packing of the module
    accessors (SMD-java/red.java:1039-1214). */
module Discovery {
  import opened Common
  import opened Registry

  /** The module categories, in the order of the offset table of
      `scanModules` (red.java:750-761). */
  datatype Category = Button | Light | Buzzer | Joystick | Distance | Qtr | Servo | Pot | Rgb | Imu

  /** The position of a category in the offset table. */
  function Group(c: Category): (g: nat)
    ensures g < 10
  {
    match c
    case Button => 0 case Light => 1 case Buzzer => 2 case Joystick => 3 case Distance => 4
    case Qtr => 5 case Servo => 6 case Pot => 7 case Rgb => 8 case Imu => 9
  }

  /** The category at a position of the offset table. */
  function CategoryAt(g: nat): (c: Category)
    requires g < 10
    ensures Group(c) == g
  {
    [Button, Light, Buzzer, Joystick, Distance, Qtr, Servo, Pot, Rgb, Imu][g]
  }

  lemma GroupRoundTrip(c: Category)
    ensures CategoryAt(Group(c)) == c
  {
  }

  /** The category part of a module name, as the `switch` of
      `setConnectedModules` spells it. */
  function CategoryName(c: Category): string {
    match c
    case Button => "Button" case Light => "Light" case Buzzer => "Buzzer" case Joystick => "Joystick"
    case Distance => "Distance" case Qtr => "QTR" case Servo => "Servo" case Pot => "Pot"
    case Rgb => "RGB" case Imu => "IMU"
  }

  /** The ordinal of the category's first register (`Button_1` ...). */
  function FirstIndex(c: Category): nat {
    match c
    case Button => 79 case Light => 84 case Buzzer => 60 case Joystick => 89 case Distance => 94
    case Qtr => 99 case Servo => 65 case Pot => 104 case Rgb => 70 case Imu => 109
  }

  /** The ordinal of the category's fifth register (`Button_5` ...). */
  function LastIndex(c: Category): nat {
    match c
    case Button => 83 case Light => 88 case Buzzer => 64 case Joystick => 93 case Distance => 98
    case Qtr => 103 case Servo => 69 case Pot => 108 case Rgb => 74 case Imu => 113
  }

  /** The name of module `s` of category `c`: "Button_1" ... "IMU_5". */
  function ModuleName(c: Category, s: nat): string
    requires 1 <= s <= 5
  {
    CategoryName(c) + "_" + [Digit(s)]
  }

  /** The `Index` constant of each module register spells that module's
      name. */
  lemma RegisterNames(c: Category, s: nat)
    requires 1 <= s <= 5
    ensures FirstIndex(c) + s - 1 < Count && Name(FirstIndex(c) + s - 1) == ModuleName(c, s)
  {
  }

  // ---------------------------------------------------------------------
  // Register index of a module (the accessors, red.java:1096-1214)

  /** The first and the last module register (`Buzzer_1`, `IMU_5`). */
  const Buzzer1: nat := 60
  const Imu5: nat := 113

  /** `moduleId + Index.X_1.ordinal() - 1`, refused with `InvalidIndexError`
      unless it lies between `X_1` and `X_5`. */
  function ModuleIndex(c: Category, moduleId: int): (r: Result<nat, Error>)
    ensures r.Success? <==> 1 <= moduleId <= 5
    ensures r.Success? ==> r.value == FirstIndex(c) + moduleId - 1 && Buzzer1 <= r.value <= Imu5
    ensures r.Success? ==> Name(r.value) == ModuleName(c, moduleId)
    ensures r.Failure? ==> r.error == InvalidIndex
  {
    var index := moduleId + FirstIndex(c) - 1;
    if index < FirstIndex(c) || index > LastIndex(c) then Failure(InvalidIndex)
    else
      RegisterNames(c, moduleId);
      Success(index)
  }

  /** Different modules have different registers. */
  lemma ModuleIndexInjective(c: Category, s: int, c': Category, s': int)
    requires ModuleIndex(c, s).Success? && ModuleIndex(c', s').Success?
    requires ModuleIndex(c, s) == ModuleIndex(c', s')
    ensures c == c' && s == s'
  {
    match c
    case Button => match c' { case _ => }
    case Light => match c' { case _ => }
    case Buzzer => match c' { case _ => }
    case Joystick => match c' { case _ => }
    case Distance => match c' { case _ => }
    case Qtr => match c' { case _ => }
    case Servo => match c' { case _ => }
    case Pot => match c' { case _ => }
    case Rgb => match c' { case _ => }
    case Imu => match c' { case _ => }
  }

  // ---------------------------------------------------------------------
  // Decoding the connected bitfield (scanModules, red.java:750-786)

  /** The offset table: the first address of each group and the ordinal of
      the group's first register. */
  const Offsets: seq<(int, int)> :=
    [(1, 79), (6, 84), (11, 60), (16, 89), (21, 94), (26, 99), (31, 65), (36, 104), (41, 70), (46, 109)]

  /** Each row of the offset table starts group `g` at address 5g+1, at the
      first register of the category at position `g`. */
  lemma OffsetsRows(g: nat)
    requires g < 10
    ensures |Offsets| == 10 && Offsets[g] == (5 * g + 1, FirstIndex(CategoryAt(g)))
  {
  }

  /** Java integer division, which truncates toward zero. */
  function JavaDiv(a: int, b: int): (q: int)
    requires b > 0
    ensures a >= 0 ==> q == a / b
    ensures -b < a < 0 ==> q == 0
  {
    if a >= 0 then a / b else -((-a) / b)
  }

  /** Whether bit `addr` of the 64-bit field is set: `(connected & (1L << addr)) != 0`. */
  predicate Bit(connected: bv64, addr: nat)
    requires addr < 64
  {
    connected & (1 << addr) != 0
  }

  /** The register a set bit names, or the `get` on the offset table that
      throws. Address 0 falls into group (0 - 1) / 5 == 0 under truncating
      division and names `AnalogPort`; addresses 51 .. 63 have no row. */
  function DecodeAddr(addr: nat): (r: Result<nat, Error>)
    requires addr < 64
    ensures r.Success? <==> addr <= 50
    ensures addr == 0 ==> r == Success(AnalogPort)
    ensures 1 <= addr <= 50 ==> r == Success(FirstIndex(CategoryAt((addr - 1) / 5)) + (addr - 1) % 5)
    ensures r.Success? ==> r.value < Count
    ensures r.Failure? ==> r.error == IndexOutOfBounds
  {
    var g := JavaDiv(addr - 1, 5);
    if g >= |Offsets| then Failure(IndexOutOfBounds)
    else
      OffsetsRows(g);
      Success(addr - Offsets[g].0 + Offsets[g].1)
  }

  /** An address 1 .. 50 names module `(addr - 1) % 5 + 1` of the category at
      position `(addr - 1) / 5`, and no other address names that module. */
  lemma DecodeAddrModule(addr: nat, c: Category, s: nat)
    requires addr < 64 && 1 <= s <= 5
    ensures DecodeAddr(addr) == Success(FirstIndex(c) + s - 1) <==> addr == 5 * Group(c) + s
  {
    if addr == 5 * Group(c) + s {
      GroupRoundTrip(c);
      assert (addr - 1) / 5 == Group(c) && (addr - 1) % 5 == s - 1;
    } else if addr == 0 {
      assert FirstIndex(c) + s - 1 != AnalogPort by {
        match c
        case Button => case Light => case Buzzer => case Joystick => case Distance =>
        case Qtr => case Servo => case Pot => case Rgb => case Imu =>
      }
    } else if 1 <= addr <= 50 && DecodeAddr(addr) == Success(FirstIndex(c) + s - 1) {
      var g, t := (addr - 1) / 5, (addr - 1) % 5 + 1;
      var c' := CategoryAt(g);
      assert FirstIndex(c') + t == FirstIndex(c) + s;
      FirstIndexInjective(c', t, c, s);
    }
  }

  /** Two module slots 1 .. 5 at the same register are the same module. */
  lemma FirstIndexInjective(c: Category, s: int, c': Category, s': int)
    requires 1 <= s <= 5 && 1 <= s' <= 5
    requires FirstIndex(c) + s == FirstIndex(c') + s'
    ensures c == c' && s == s'
  {
    match c
    case Button => match c' { case _ => }
    case Light => match c' { case _ => }
    case Buzzer => match c' { case _ => }
    case Joystick => match c' { case _ => }
    case Distance => match c' { case _ => }
    case Qtr => match c' { case _ => }
    case Servo => match c' { case _ => }
    case Pot => match c' { case _ => }
    case Rgb => match c' { case _ => }
    case Imu => match c' { case _ => }
  }

  /** The registers of the set bits below `n`, in address order. */
  function DecodedUpTo(connected: bv64, n: nat): (r: Result<seq<nat>, Error>)
    requires n <= 64
    ensures r.Success? ==> forall j | 0 <= j < |r.value| :: r.value[j] < Count
  {
    if n == 0 then Success([])
    else
      match DecodedUpTo(connected, n - 1)
      case Failure(e) => Failure(e)
      case Success(found) =>
        if !Bit(connected, n - 1) then Success(found)
        else
          match DecodeAddr(n - 1)
          case Failure(e) => Failure(e)
          case Success(k) => Success(found + [k])
  }

  /** The result of the decode: nothing for an empty field, else the names of
      the registers of the set bits, or the error of the first bad bit. */
  function Decode(connected: bv64): Result<Option<seq<string>>, Error> {
    if connected == 0 then Success(None)
    else
      match DecodedUpTo(connected, 64)
      case Failure(e) => Failure(e)
      case Success(found) => Success(Some(NamesOf(found)))
  }

  function NamesOf(found: seq<nat>): (r: seq<string>)
    requires forall j | 0 <= j < |found| :: found[j] < Count
    ensures |r| == |found| && forall j | 0 <= j < |found| :: r[j] == Name(found[j])
  {
    seq(|found|, j requires 0 <= j < |found| => Name(found[j]))
  }

  /** Once a bad bit has been met, the decode fails with that error whatever
      follows. */
  lemma {:induction false} DecodeFailureSticks(connected: bv64, n: nat, m: nat)
    requires n <= m <= 64 && DecodedUpTo(connected, n).Failure?
    ensures DecodedUpTo(connected, m) == DecodedUpTo(connected, n)
    decreases m - n
  {
    if n < m {
      DecodeFailureSticks(connected, n, m - 1);
    }
  }

  /** The decode loop of `scanModules`, run on a bitfield. */
  method DecodeModules(connected: bv64) returns (r: Result<Option<seq<string>>, Error>)
    ensures r == Decode(connected)
  {
    if connected == 0 {
      return Success(None);
    }
    var result: seq<nat> := [];
    for addr := 0 to 64
      invariant DecodedUpTo(connected, addr) == Success(result)
    {
      if Bit(connected, addr) {
        var g := JavaDiv(addr - 1, 5);
        if g >= |Offsets| {
          DecodeFailureSticks(connected, addr + 1, 64);
          return Failure(IndexOutOfBounds);
        }
        result := result + [addr - Offsets[g].0 + Offsets[g].1];
      }
    }
    return Success(Some(NamesOf(result)));
  }

  /** The decode fails exactly when a bit 51 .. 63 is set. */
  lemma {:induction false} DecodedUpToFails(connected: bv64, n: nat)
    requires n <= 64
    ensures DecodedUpTo(connected, n).Failure? <==> exists a | 51 <= a < n :: Bit(connected, a)
  {
    if n > 0 {
      DecodedUpToFails(connected, n - 1);
    }
  }

  /** On success the decoded registers are exactly those named by the set
      bits below `n`. */
  lemma {:induction false} DecodedUpToMembers(connected: bv64, n: nat, k: nat)
    requires n <= 64 && DecodedUpTo(connected, n).Success?
    ensures k in DecodedUpTo(connected, n).value <==>
              exists a | 0 <= a < n :: Bit(connected, a) && DecodeAddr(a) == Success(k)
  {
    if n > 0 {
      DecodedUpToMembers(connected, n - 1, k);
    }
  }

  lemma DecodeFails(connected: bv64)
    ensures Decode(connected).Failure? <==> exists a | 51 <= a < 64 :: Bit(connected, a)
  {
    DecodedUpToFails(connected, 64);
    if exists a | 51 <= a < 64 :: Bit(connected, a) {
      assert connected != 0;
    }
  }

  // ---------------------------------------------------------------------
  // Parsing module names (setConnectedModules, red.java:801-846)

  /** `lastIndexOf("_")`: the position of the last underscore, or -1. */
  function LastUnderscore(m: string): (p: int)
    ensures -1 <= p < |m|
    ensures p >= 0 ==> m[p] == '_'
    ensures forall j | p < j < |m| :: m[j] != '_'
    decreases |m|
  {
    if |m| == 0 then -1
    else if m[|m| - 1] == '_' then |m| - 1
    else LastUnderscore(m[..|m| - 1])
  }

  predicate IsDigit(ch: char) {
    '0' <= ch <= '9'
  }

  /** Every character of `d` is a decimal digit. */
  predicate AllDigits(d: string)
    decreases |d|
  {
    |d| == 0 || (AllDigits(d[..|d| - 1]) && IsDigit(d[|d| - 1]))
  }

  lemma {:induction false} AllDigitsChars(d: string)
    requires AllDigits(d)
    ensures forall i | 0 <= i < |d| :: IsDigit(d[i])
    decreases |d|
  {
    if |d| > 0 {
      AllDigitsChars(d[..|d| - 1]);
    }
  }

  /** The decimal value of a string of digits. */
  function DigitsValue(d: string): nat
    requires AllDigits(d)
    decreases |d|
  {
    if |d| == 0 then 0
    else DigitsValue(d[..|d| - 1]) * 10 + (d[|d| - 1] as int - '0' as int)
  }

  /** `Integer.parseInt`: an optional sign followed by at least one decimal
      digit, whose value fits in 32 bits; anything else is a
      `NumberFormatException` (None). */
  function ParseInt(t: string): (r: Option<int>)
    ensures r.Some? ==> -0x8000_0000 <= r.value < 0x8000_0000
    ensures r.Some? ==> |t| > 0
  {
    if |t| == 0 then None
    else
      var signed := t[0] == '-' || t[0] == '+';
      var digits := if signed then t[1..] else t;
      if |digits| == 0 || !AllDigits(digits) then None
      else
        var magnitude: int := DigitsValue(digits);
        var v := if t[0] == '-' then -magnitude else magnitude;
        if -0x8000_0000 <= v < 0x8000_0000 then Some(v) else None
  }

  /** Leading zeros do not change the value of a digit string. */
  lemma {:induction false} LeadingZero(d: string)
    requires AllDigits(d)
    ensures AllDigits("0" + d) && DigitsValue("0" + d) == DigitsValue(d)
    decreases |d|
  {
    if |d| > 0 {
      var n := |d| - 1;
      assert ("0" + d)[..|"0" + d| - 1] == "0" + d[..n];
      LeadingZero(d[..n]);
    }
  }

  /** `parseInt` reads the digit of a module number as that number, with or
      without a leading zero. */
  lemma ParseDigit(s: nat)
    requires 1 <= s <= 5
    ensures ParseInt([Digit(s)]) == Some(s)
    ensures ParseInt("0" + [Digit(s)]) == Some(s)
  {
    var d := [Digit(s)];
    assert DigitsValue(d) == s by {
      assert d[..0] == "";
    }
    LeadingZero(d);
  }

  /** The `case` labels of the `switch`, in source order. */
  const Labels: seq<Category> := [Buzzer, Servo, Rgb, Button, Light, Joystick, Distance, Qtr, Pot, Imu]

  /** The category whose `switch` label is `n`, if any: the first label from
      position `i` on that equals `n`. */
  function LabelFrom(n: string, i: nat): (r: Option<Category>)
    requires i <= |Labels|
    ensures r.Some? ==> CategoryName(r.value) == n
    decreases |Labels| - i
  {
    if i == |Labels| then None
    else if CategoryName(Labels[i]) == n then Some(Labels[i])
    else LabelFrom(n, i + 1)
  }

  function CategoryNamed(n: string): (r: Option<Category>)
    ensures r.Some? ==> CategoryName(r.value) == n
  {
    LabelFrom(n, 0)
  }

  /** Each category is found under its own label: no earlier label spells
      the same name. */
  lemma CategoryNamedName(c: Category)
    ensures CategoryNamed(CategoryName(c)) == Some(c)
  {
    var n := CategoryName(c);
    assert n == CategoryName(Labels[0]) || LabelFrom(n, 1) == LabelFrom(n, 1);
  }

  /** The module a module name stands for, or None for
      each of the exceptions the loop of `setConnectedModules` can raise: a
      suffix `parseInt` refuses, a number outside 1 .. 5, a name without an
      underscore (`substring(0, -1)`) and an unknown category. */
  function ParseModule(m: string): Option<ModuleRef> {
    var p := LastUnderscore(m);
    match ParseInt(m[p + 1..])
    case None => None
    case Some(id) =>
      if id < 1 || id > 5 then None
      else if p < 0 then None
      else
        match CategoryNamed(m[..p])
        case None => None
        case Some(c) => Some((c, id))
  }

  /** A module: a category and a module number 1 .. 5. */
  type ModuleRef = m: (Category, nat) | 1 <= m.1 <= 5 witness (Button, 1)

  /** A name is accepted exactly when it is a category label, an underscore,
      and a suffix `parseInt` reads as 1 .. 5. */
  lemma ParseModuleShape(m: string, c: Category, s: nat)
    ensures ParseModule(m) == Some((c, s)) ==>
              exists t :: m == CategoryName(c) + "_" + t && ParseInt(t) == Some(s)
  {
    if ParseModule(m) == Some((c, s)) {
      var p := LastUnderscore(m);
      var t := m[p + 1..];
      assert p >= 0 && ParseInt(t) == Some(s);
      assert CategoryNamed(m[..p]) == Some(c);
      SplitAtUnderscore(m, p);
    }
  }

  /** A string is what stands before an underscore, the underscore and what
      follows it. */
  lemma SplitAtUnderscore(m: string, p: int)
    requires 0 <= p < |m| && m[p] == '_'
    ensures m == m[..p] + "_" + m[p + 1..]
  {
    assert m[p..] == "_" + m[p + 1..];
    assert m == m[..p] + m[p..];
  }

  /** No category label contains an underscore. */
  lemma CategoryNameHasNoUnderscore(c: Category)
    ensures forall j | 0 <= j < |CategoryName(c)| :: CategoryName(c)[j] != '_'
  {
  }

  /** The last underscore of "label_suffix" is the one after the label when
      the suffix has none. */
  lemma LastUnderscoreAfterLabel(c: Category, t: string)
    requires forall j | 0 <= j < |t| :: t[j] != '_'
    ensures LastUnderscore(CategoryName(c) + "_" + t) == |CategoryName(c)|
    decreases |t|
  {
    var m := CategoryName(c) + "_" + t;
    if |t| == 0 {
      assert m[|m| - 1] == '_';
    } else {
      assert m[..|m| - 1] == CategoryName(c) + "_" + t[..|t| - 1];
      LastUnderscoreAfterLabel(c, t[..|t| - 1]);
    }
  }

  /** A string `parseInt` accepts holds no underscore. */
  lemma ParsedHasNoUnderscore(t: string)
    requires ParseInt(t).Some?
    ensures forall j | 0 <= j < |t| :: t[j] != '_'
  {
    if t[0] == '-' || t[0] == '+' {
      AllDigitsChars(t[1..]);
      forall j | 1 <= j < |t| ensures t[j] != '_' {
        assert t[j] == t[1..][j - 1];
      }
    } else {
      AllDigitsChars(t);
    }
  }

  /** "label_suffix" parses back to its category and number, for every suffix
      `parseInt` reads as 1 .. 5. */
  lemma ParseLabelled(c: Category, t: string, s: nat)
    requires ParseInt(t) == Some(s) && 1 <= s <= 5
    ensures ParseModule(CategoryName(c) + "_" + t) == Some((c, s))
  {
    var m := CategoryName(c) + "_" + t;
    ParsedHasNoUnderscore(t);
    LastUnderscoreAfterLabel(c, t);
    var p := |CategoryName(c)|;
    assert m[p + 1..] == t && m[..p] == CategoryName(c);
    CategoryNamedName(c);
  }

  /** Every module name parses back to its module. */
  lemma ParseModuleName(c: Category, s: nat)
    requires 1 <= s <= 5
    ensures ParseModule(ModuleName(c, s)) == Some((c, s))
  {
    ParseDigit(s);
    ParseLabelled(c, [Digit(s)], s);
  }

  /** The register names `scanModules` can return besides module names:
      "AnalogPort", which `setConnectedModules` refuses. */
  lemma AnalogPortRefused()
    ensures ParseModule(Name(AnalogPort)) == None
  {
    var m := Name(AnalogPort);
    assert m == "AnalogPort";
    assert LastUnderscore(m) == -1;
    assert !IsDigit(m[0]);
  }

  // ---------------------------------------------------------------------
  // The manual module masks (setConnectedModules, red.java:788-846)

  /** `Math.pow(2, s - 1)`: the mask bit of module `s`. */
  function SlotBit(s: nat): bv8
    requires 1 <= s <= 5
  {
    if s == 1 then 1 else if s == 2 then 2 else if s == 3 then 4 else if s == 4 then 8 else 16
  }

  /** Ten empty masks, one per category, indexed by `Group`. */
  const NoMasks: seq<bv8> := [0, 0, 0, 0, 0, 0, 0, 0, 0, 0]

  /** The parser of each name, one after the other, stopping with None at
      the first name it refuses: the loop of `setConnectedModules` stops at its
      first exception, which the `catch` rethrows as "Error in setting
      connected modules". The lemmas below hold for any parser; `MasksOf`
      uses `ParseModule`. */
  function ParseEach(parse: string -> Option<ModuleRef>, names: seq<string>): (r: Option<seq<ModuleRef>>)
    ensures r.Some? ==> |r.value| == |names|
    decreases |names|
  {
    if |names| == 0 then Some([])
    else
      var n := |names| - 1;
      match ParseEach(parse, names[..n])
      case None => None
      case Some(ps) =>
        match parse(names[n])
        case None => None
        case Some(m) => Some(ps + [m])
  }

  /** On success, entry `j` is what the parser makes of name `j`. */
  lemma {:induction false} ParseEachAt(parse: string -> Option<ModuleRef>, names: seq<string>, j: nat)
    requires ParseEach(parse, names).Some? && j < |names|
    ensures parse(names[j]) == Some(ParseEach(parse, names).value[j])
    decreases |names|
  {
    var n := |names| - 1;
    if j < n {
      ParseEachAt(parse, names[..n], j);
    }
  }

  /** A prefix that does not parse fails the whole list. */
  lemma {:induction false} ParseEachPrefixNone(parse: string -> Option<ModuleRef>, names: seq<string>, n: nat)
    requires n <= |names| && ParseEach(parse, names[..n]).None?
    ensures ParseEach(parse, names).None?
    decreases |names| - n
  {
    if n < |names| {
      assert names[..n + 1][..n] == names[..n];
      ParseEachPrefixNone(parse, names, n + 1);
    } else {
      assert names[..n] == names;
    }
  }

  /** The list parses exactly when every name does. */
  lemma {:induction false} ParseEachSome(parse: string -> Option<ModuleRef>, names: seq<string>)
    ensures ParseEach(parse, names).Some? <==> forall j | 0 <= j < |names| :: parse(names[j]).Some?
    decreases |names|
  {
    if |names| > 0 {
      var n := |names| - 1;
      ParseEachSome(parse, names[..n]);
      if ParseEach(parse, names).Some? {
        forall j | 0 <= j < |names| ensures parse(names[j]).Some? {
          ParseEachAt(parse, names, j);
        }
      }
      if forall j | 0 <= j < |names| :: parse(names[j]).Some? {
        assert forall j | 0 <= j < n :: names[..n][j] == names[j];
      }
    }
  }

  /** One step of the mask loop: the next name either fails the whole list
      or extends the parsed prefix by its module. */
  lemma ParseEachStep(parse: string -> Option<ModuleRef>, names: seq<string>, j: nat, ps: seq<ModuleRef>)
    requires j < |names| && ParseEach(parse, names[..j]) == Some(ps)
    ensures parse(names[j]).None? ==> ParseEach(parse, names).None?
    ensures parse(names[j]).Some? ==> ParseEach(parse, names[..j + 1]) == Some(ps + [parse(names[j]).value])
  {
    assert names[..j + 1][..j] == names[..j];
    if parse(names[j]).None? {
      ParseEachPrefixNone(parse, names, j + 1);
    }
  }

  /** The masks of a list of modules: each sets its bit in its category's
      mask. */
  function MasksParsed(ps: seq<ModuleRef>): (r: seq<bv8>)
    ensures |r| == 10
    decreases |ps|
  {
    if |ps| == 0 then NoMasks
    else
      var n := |ps| - 1;
      var (c, s) := ps[n];
      var ms := MasksParsed(ps[..n]);
      ms[Group(c) := ms[Group(c)] | SlotBit(s)]
  }

  /** The masks `setConnectedModules` computes for a list of names, or the
      wrapped failure. */
  function MasksOf(names: seq<string>): (r: Result<seq<bv8>, Error>)
    ensures r.Success? ==> |r.value| == 10
    ensures r.Failure? ==> r.error == InvalidModule
  {
    match ParseEach(ParseModule, names)
    case None => Failure(InvalidModule)
    case Some(ps) => Success(MasksParsed(ps))
  }

  /** Bit `s - 1` of the mask of category `c` is set exactly when module `s`
      of `c` is in the list, and no mask has a bit above bit 4. */
  lemma {:induction false} MaskBits(ps: seq<ModuleRef>, c: Category, s: nat)
    requires 1 <= s <= 5
    ensures MasksParsed(ps)[Group(c)] & SlotBit(s) != 0 <==> (c, s) in ps
    ensures MasksParsed(ps)[Group(c)] & 0xE0 == 0
    decreases |ps|
  {
    if |ps| > 0 {
      var n := |ps| - 1;
      assert ps == ps[..n] + [ps[n]];
      MaskBits(ps[..n], c, s);
      GroupRoundTrip(c);
      GroupRoundTrip(ps[n].0);
    }
  }

  /** A module is in the parsed list exactly when some name parses to it. */
  lemma ParsedMembers(parse: string -> Option<ModuleRef>, names: seq<string>, m: ModuleRef)
    requires ParseEach(parse, names).Some?
    ensures m in ParseEach(parse, names).value <==> exists j | 0 <= j < |names| :: parse(names[j]) == Some(m)
  {
    var ps := ParseEach(parse, names).value;
    if m in ps {
      var j :| 0 <= j < |ps| && ps[j] == m;
      ParseEachAt(parse, names, j);
    }
    if j :| 0 <= j < |names| && parse(names[j]) == Some(m) {
      ParseEachAt(parse, names, j);
      assert ps[j] == m;
    }
  }

  /** For any parser: bit `s - 1` of the mask of category `c` is set exactly
      when some name stands for module `s` of `c`. */
  lemma MaskBitsOfEach(parse: string -> Option<ModuleRef>, names: seq<string>, c: Category, s: nat)
    requires ParseEach(parse, names).Some? && 1 <= s <= 5
    ensures MasksParsed(ParseEach(parse, names).value)[Group(c)] & SlotBit(s) != 0 <==>
              exists j | 0 <= j < |names| :: parse(names[j]) == Some((c, s))
  {
    MaskBitsOfParsed(parse, names, c, s);
    ParsedModule(parse, names, c, s);
  }

  lemma ParsedModule(parse: string -> Option<ModuleRef>, names: seq<string>, c: Category, s: nat)
    requires ParseEach(parse, names).Some? && 1 <= s <= 5
    ensures (c, s) in ParseEach(parse, names).value <==>
              exists j | 0 <= j < |names| :: parse(names[j]) == Some((c, s))
  {
    ParsedMembers(parse, names, (c, s));
  }

  lemma MaskBitsOfParsed(parse: string -> Option<ModuleRef>, names: seq<string>, c: Category, s: nat)
    requires ParseEach(parse, names).Some? && 1 <= s <= 5
    ensures MasksParsed(ParseEach(parse, names).value)[Group(c)] & SlotBit(s) != 0 <==>
              (c, s) in ParseEach(parse, names).value
  {
    MaskBits(ParseEach(parse, names).value, c, s);
  }

  /** The masks exist exactly when every name parses; then bit `s - 1` of the
      mask of category `c` is set exactly when some name stands for module `s`
      of `c`, and no mask has a bit above bit 4. */
  lemma MaskBitsOfNames(names: seq<string>, c: Category, s: nat)
    requires 1 <= s <= 5
    ensures MasksOf(names).Success? <==> forall j | 0 <= j < |names| :: ParseModule(names[j]).Some?
    ensures MasksOf(names).Success? ==>
              (MasksOf(names).value[Group(c)] & SlotBit(s) != 0 <==>
                 exists j | 0 <= j < |names| :: ParseModule(names[j]) == Some((c, s)))
    ensures MasksOf(names).Success? ==> MasksOf(names).value[Group(c)] & 0xE0 == 0
  {
    ParseEachSome(ParseModule, names);
    if MasksOf(names).Success? {
      MaskBitsOfEach(ParseModule, names, c, s);
      MaskBits(ParseEach(ParseModule, names).value, c, s);
    }
  }

  /** The mask loop of `setConnectedModules`, with each `+=` of a module bit
      made a bitwise or (see `MasksAsWritten`). */
  method ManualMasks(modules: seq<string>) returns (r: Result<seq<bv8>, Error>)
    ensures r == MasksOf(modules)
  {
    var masks := NoMasks;
    ghost var ps: seq<ModuleRef> := [];
    for j := 0 to |modules|
      invariant ParseEach(ParseModule, modules[..j]) == Some(ps) && masks == MasksParsed(ps)
    {
      var parsed := ParseModule(modules[j]);
      ParseEachStep(ParseModule, modules, j, ps);
      if parsed.None? {
        return Failure(InvalidModule);
      }
      var (c, s) := parsed.value;
      assert (ps + [(c, s)])[..|ps|] == ps;
      masks := masks[Group(c) := masks[Group(c)] | SlotBit(s)];
      ps := ps + [(c, s)];
    }
    assert modules[..|modules|] == modules;
    return Success(masks);
  }

  /** `new ArrayList<>(new HashSet<>(modules))`: each name once. The order of
      a `HashSet` is unspecified; this keeps first occurrences, and the masks
      do not depend on which duplicates are dropped (`MasksOfDistinct`). */
  function Distinct(xs: seq<string>): (r: seq<string>)
    ensures forall x :: x in r <==> x in xs
    ensures forall i, j | 0 <= i < j < |r| :: r[i] != r[j]
    decreases |xs|
  {
    if |xs| == 0 then []
    else
      var n := |xs| - 1;
      assert xs == xs[..n] + [xs[n]];
      var r := Distinct(xs[..n]);
      if xs[n] in r then r else r + [xs[n]]
  }

  /** For any parser, some name of the list parses to `m` exactly when some
      name of its de-duplicated list does. */
  lemma DistinctParsesTo(parse: string -> Option<ModuleRef>, xs: seq<string>, m: Option<ModuleRef>)
    ensures (exists j | 0 <= j < |Distinct(xs)| :: parse(Distinct(xs)[j]) == m) ==>
            (exists i | 0 <= i < |xs| :: parse(xs[i]) == m)
    ensures (exists i | 0 <= i < |xs| :: parse(xs[i]) == m) ==>
            (exists j | 0 <= j < |Distinct(xs)| :: parse(Distinct(xs)[j]) == m)
  {
    var d := Distinct(xs);
    if exists i | 0 <= i < |xs| :: parse(xs[i]) == m {
      var i :| 0 <= i < |xs| && parse(xs[i]) == m;
      assert xs[i] in d;
      var j :| 0 <= j < |d| && d[j] == xs[i];
      assert parse(d[j]) == m;
    }
    if exists j | 0 <= j < |d| :: parse(d[j]) == m {
      var j :| 0 <= j < |d| && parse(d[j]) == m;
      assert d[j] in xs;
      var i :| 0 <= i < |xs| && xs[i] == d[j];
      assert parse(xs[i]) == m;
    }
  }

  /** For any parser, removing duplicate names changes neither whether the
      list parses nor any of its mask bits. */
  lemma ParseEachDistinct(parse: string -> Option<ModuleRef>, xs: seq<string>, c: Category, s: nat)
    requires 1 <= s <= 5
    ensures ParseEach(parse, Distinct(xs)).Some? <==> ParseEach(parse, xs).Some?
    ensures ParseEach(parse, xs).Some? ==>
              (MasksParsed(ParseEach(parse, Distinct(xs)).value)[Group(c)] & SlotBit(s) != 0 <==>
                 MasksParsed(ParseEach(parse, xs).value)[Group(c)] & SlotBit(s) != 0)
  {
    var d := Distinct(xs);
    ParseEachSome(parse, xs);
    ParseEachSome(parse, d);
    DistinctParsesTo(parse, xs, None);
    assert A: ParseEach(parse, d).Some? <==> ParseEach(parse, xs).Some?;
    if ParseEach(parse, xs).Some? {
      MaskBitsOfEach(parse, xs, c, s);
      MaskBitsOfEach(parse, d, c, s);
      DistinctParsesTo(parse, xs, Some((c, s)));
    }
  }

  /** Removing duplicate module names changes neither whether the masks exist
      nor any of their bits. */
  lemma MasksOfDistinct(xs: seq<string>, c: Category, s: nat)
    requires 1 <= s <= 5
    ensures MasksOf(Distinct(xs)).Success? <==> MasksOf(xs).Success?
    ensures MasksOf(xs).Success? ==>
              (MasksOf(Distinct(xs)).value[Group(c)] & SlotBit(s) != 0 <==> MasksOf(xs).value[Group(c)] & SlotBit(s) != 0)
  {
    ParseEachDistinct(ParseModule, xs, c, s);
  }

  // ---------------------------------------------------------------------
  // The masks as written: `+=` of Math.pow (red.java:811-838)

  /** The sums the loop of `setConnectedModules` computes: `+=` adds the bit of
      a module once per name, so two names of the same module add it twice. */
  function SumsParsed(ps: seq<ModuleRef>): (r: seq<int>)
    ensures |r| == 10
    decreases |ps|
  {
    if |ps| == 0 then [0, 0, 0, 0, 0, 0, 0, 0, 0, 0]
    else
      var n := |ps| - 1;
      var (c, s) := ps[n];
      var ms := SumsParsed(ps[..n]);
      ms[Group(c) := ms[Group(c)] + SlotBit(s) as int]
  }

  /** The masks as the source computes them for a list of names. */
  function MasksAsWritten(names: seq<string>): (r: Result<seq<int>, Error>)
    ensures r.Success? ==> |r.value| == 10
    ensures r.Failure? <==> MasksOf(names).Failure?
  {
    match ParseEach(ParseModule, names)
    case None => Failure(InvalidModule)
    case Some(ps) => Success(SumsParsed(ps))
  }

  /** Adding a bit that is clear is the same as or-ing it in. */
  lemma OrOfClearBit(x: bv8, s: nat)
    requires 1 <= s <= 5 && x & SlotBit(s) == 0 && x & 0xE0 == 0
    ensures (x | SlotBit(s)) as int == x as int + SlotBit(s) as int
  {
  }

  /** When no module occurs twice among the parsed names, the sums are the
      masks: the `+=` of the source goes wrong only on repeated modules. */
  lemma {:induction false} SumsAreMasksWithoutRepeats(ps: seq<ModuleRef>, g: nat)
    requires g < 10
    requires forall i, j | 0 <= i < j < |ps| :: ps[i] != ps[j]
    ensures SumsParsed(ps)[g] == MasksParsed(ps)[g] as int
    decreases |ps|
  {
    if |ps| > 0 {
      var n := |ps| - 1;
      var (c, s) := ps[n];
      SumsAreMasksWithoutRepeats(ps[..n], g);
      if Group(c) == g {
        MaskBits(ps[..n], c, s);
        assert (c, s) !in ps[..n];
        OrOfClearBit(MasksParsed(ps[..n])[g], s);
      }
    }
  }

  /** Two names of one module, as a user may write them. */
  const RepeatedBuzzer: seq<string> := ["Buzzer_2", "Buzzer_02"]

  /** The set of `setConnectedModules` keeps both names, since they differ
      as strings, and the source adds the bit of `Buzzer_2` twice: the buzzer
      mask becomes 4, the bit of `Buzzer_3`. */
  lemma RepeatedModuleCarries()
    ensures Distinct(RepeatedBuzzer) == RepeatedBuzzer
    ensures MasksAsWritten(RepeatedBuzzer) == Success([0, 0, 4, 0, 0, 0, 0, 0, 0, 0])
  {
    RepeatedBuzzerParses();
    TwiceBuzzer();
    assert "Buzzer_02" != "Buzzer_2" by {
      assert "Buzzer_02"[7] != "Buzzer_2"[7];
    }
  }

  /** For the same two names the corrected masks set only the bit of
      `Buzzer_2`. */
  lemma RepeatedModuleMasked()
    ensures MasksOf(RepeatedBuzzer) == Success([0, 0, 2, 0, 0, 0, 0, 0, 0, 0])
  {
    RepeatedBuzzerParses();
    TwiceBuzzer();
  }

  /** Buzzer 2 parsed twice: summed, its bit carries into the next; or-ed,
      it stays. */
  lemma TwiceBuzzer()
    ensures SumsParsed([(Buzzer, 2), (Buzzer, 2)]) == [0, 0, 4, 0, 0, 0, 0, 0, 0, 0]
    ensures MasksParsed([(Buzzer, 2), (Buzzer, 2)]) == [0, 0, 2, 0, 0, 0, 0, 0, 0, 0]
  {
    var x: ModuleRef := (Buzzer, 2);
    var ps: seq<ModuleRef> := [x, x];
    var one: seq<ModuleRef> := [x];
    assert ps[..1] == one && one[..0] == [];
    assert SumsParsed(one) == [0, 0, 2, 0, 0, 0, 0, 0, 0, 0];
    assert MasksParsed(one) == [0, 0, 2, 0, 0, 0, 0, 0, 0, 0];
  }

  /** Both names parse to module 2 of the buzzers. */
  lemma RepeatedBuzzerParses()
    ensures ParseEach(ParseModule, RepeatedBuzzer) == Some([(Buzzer, 2), (Buzzer, 2)])
  {
    ParseDigit(2);
    ParseLabelled(Buzzer, "2", 2);
    ParseLabelled(Buzzer, "02", 2);
    assert CategoryName(Buzzer) + "_" + "2" == "Buzzer_2" by {}
    assert CategoryName(Buzzer) + "_" + "02" == "Buzzer_02" by {}
    ParseEachPair(ParseModule, "Buzzer_2", "Buzzer_02", (Buzzer, 2));
  }

  /** Two names the parser reads as the same module parse to that module twice. */
  lemma ParseEachPair(parse: string -> Option<ModuleRef>, a: string, b: string, x: ModuleRef)
    requires parse(a) == Some(x) && parse(b) == Some(x)
    ensures ParseEach(parse, [a, b]) == Some([x, x])
  {
    var names := [a, b];
    var none: seq<ModuleRef> := [];
    assert names[..0] == [];
    ParseEachStep(parse, names, 0, none);
    var one: seq<ModuleRef> := [x];
    assert none + [x] == one;
    ParseEachStep(parse, names, 1, one);
    assert names[..2] == names;
    var two: seq<ModuleRef> := [x, x];
    assert one + [x] == two;
  }

  // ---------------------------------------------------------------------
  // The writes of setConnectedModules (red.java:848-860)

  /** The register of the `i`-th mask write: `SetManualBuzzer` ... `SetManualIMU`,
      in the order of the `case` labels. */
  function ManualRegister(i: nat): (k: nat)
    requires i < 10
    ensures SetManualBuzzer <= k < SetManualBuzzer + 10 && k < Count
  {
    SetManualBuzzer + i
  }

  /** The value written to the `i`-th mask register. */
  function ManualValue(masks: seq<bv8>, i: nat): Value
    requires |masks| == 10 && i < 10
  {
    Int(masks[Group(Labels[i])] as int)
  }

  // ---------------------------------------------------------------------
  // Decode followed by configuration

  /** The module an address 1 .. 50 of the bitfield stands for. */
  function AddrModule(addr: nat): (m: ModuleRef)
    requires 1 <= addr <= 50
    ensures DecodeAddr(addr) == Success(FirstIndex(m.0) + m.1 - 1)
  {
    var g := (addr - 1) / 5;
    OffsetsRows(g);
    (CategoryAt(g), (addr - 1) % 5 + 1)
  }

  /** The name decoded from an address 1 .. 50 parses back to its module. */
  lemma AddrModuleParses(addr: nat)
    requires 1 <= addr <= 50
    ensures DecodeAddr(addr).Success? && ParseModule(Name(DecodeAddr(addr).value)) == Some(AddrModule(addr))
  {
    var (c, s) := AddrModule(addr);
    RegisterNames(c, s);
    ParseModuleName(c, s);
  }

  /** Each module comes from exactly one address. */
  lemma AddrModuleIff(addr: nat, c: Category, s: nat)
    requires 1 <= addr <= 50 && 1 <= s <= 5
    ensures AddrModule(addr) == (c, s) <==> addr == 5 * Group(c) + s
  {
    DecodeAddrModule(addr, c, s);
    var (c', s') := AddrModule(addr);
    if DecodeAddr(addr) == Success(FirstIndex(c) + s - 1) {
      ModuleIndexInjective(c', s', c, s);
    }
  }

  /** The bitfields `scanModules` reports modules for: some bit set, and
      every set bit in 1 .. 50. */
  predicate ModuleBits(connected: bv64) {
    connected != 0 && !Bit(connected, 0) && forall a | 51 <= a < 64 :: !Bit(connected, a)
  }

  /** Name `j` of a decoded field parses to the module of some set address. */
  lemma DecodedNameParses(connected: bv64, j: nat)
    requires ModuleBits(connected) && DecodedUpTo(connected, 64).Success?
    requires j < |DecodedUpTo(connected, 64).value|
    ensures exists a | 1 <= a <= 50 :: Bit(connected, a) &&
              ParseModule(Name(DecodedUpTo(connected, 64).value[j])) == Some(AddrModule(a))
  {
    var found := DecodedUpTo(connected, 64).value;
    DecodedUpToMembers(connected, 64, found[j]);
    var a :| 0 <= a < 64 && Bit(connected, a) && DecodeAddr(a) == Success(found[j]);
    AddrModuleParses(a);
  }

  /** The names decoded from a field of module bits all parse, and module
      `s` of `c` is among them exactly when its bit is set. */
  lemma DecodedModules(connected: bv64, c: Category, s: nat)
    requires ModuleBits(connected) && 1 <= s <= 5
    ensures Decode(connected).Success? && Decode(connected).value.Some?
    ensures forall j | 0 <= j < |Decode(connected).value.value| ::
              ParseModule(Decode(connected).value.value[j]).Some?
    ensures (exists j | 0 <= j < |Decode(connected).value.value| ::
               ParseModule(Decode(connected).value.value[j]) == Some((c, s))) <==>
            Bit(connected, 5 * Group(c) + s)
  {
    DecodeFails(connected);
    var names := NamesOf(DecodedUpTo(connected, 64).value);
    forall j | 0 <= j < |names| ensures ParseModule(names[j]).Some? {
      DecodedNameParses(connected, j);
    }
    if Bit(connected, 5 * Group(c) + s) {
      SetBitDecoded(connected, c, s);
      var j :| 0 <= j < |names| && names[j] == ModuleName(c, s);
      ParseModuleName(c, s);
      assert ParseModule(names[j]) == Some((c, s));
    }
    if j :| 0 <= j < |names| && ParseModule(names[j]) == Some((c, s)) {
      var found := DecodedUpTo(connected, 64).value;
      assert names[j] == Name(found[j]);
      DecodedNameSet(connected, found, c, s, j);
    }
  }

  /** A set module bit yields that module's name. */
  lemma SetBitDecoded(connected: bv64, c: Category, s: nat)
    requires ModuleBits(connected) && 1 <= s <= 5 && DecodedUpTo(connected, 64).Success?
    requires Bit(connected, 5 * Group(c) + s)
    ensures exists j | 0 <= j < |DecodedUpTo(connected, 64).value| ::
              NamesOf(DecodedUpTo(connected, 64).value)[j] == ModuleName(c, s)
  {
    var found := DecodedUpTo(connected, 64).value;
    var k := FirstIndex(c) + s - 1;
    DecodeAddrModule(5 * Group(c) + s, c, s);
    DecodedUpToMembers(connected, 64, k);
    var j :| 0 <= j < |found| && found[j] == k;
    RegisterNames(c, s);
    assert NamesOf(found)[j] == Name(k);
  }

  /** A decoded name of module `s` of `c` comes from that module's bit. */
  lemma DecodedNameSet(connected: bv64, found: seq<nat>, c: Category, s: nat, j: nat)
    requires ModuleBits(connected) && 1 <= s <= 5 && DecodedUpTo(connected, 64) == Success(found)
    requires j < |found| && found[j] < Count && ParseModule(Name(found[j])) == Some((c, s))
    ensures Bit(connected, 5 * Group(c) + s)
  {
    DecodedNameParses(connected, j);
    var a :| 1 <= a <= 50 && Bit(connected, a) && ParseModule(Name(found[j])) == Some(AddrModule(a));
    SameModuleSameBit(Name(found[j]), a, c, s);
  }

  /** A name that parses both as the module of bit `a` and as module `s` of
      `c` pins `a` down to `5 * Group(c) + s`. */
  lemma SameModuleSameBit(name: string, a: nat, c: Category, s: nat)
    requires 1 <= a <= 50 && 1 <= s <= 5
    requires ParseModule(name) == Some(AddrModule(a)) && ParseModule(name) == Some((c, s))
    ensures a == 5 * Group(c) + s
  {
    AddrModuleIff(a, c, s);
  }

  /** Feeding the names `scanModules` decodes back to `setConnectedModules`
      reproduces the field: the masks exist, and bit `s - 1` of the mask of
      `c` is set exactly when bit `5 * Group(c) + s` of the field is. */
  lemma ScanThenConfigure(connected: bv64, c: Category, s: nat)
    requires ModuleBits(connected) && 1 <= s <= 5
    ensures Decode(connected).Success? && Decode(connected).value.Some?
    ensures MasksOf(Decode(connected).value.value).Success?
    ensures MasksOf(Decode(connected).value.value).value[Group(c)] & SlotBit(s) != 0 <==>
              Bit(connected, 5 * Group(c) + s)
  {
    DecodedModules(connected, c, s);
    MaskBitsOfNames(Decode(connected).value.value, c, s);
  }

  /** A field with bit 0 set decodes to a list holding "AnalogPort", which
      `setConnectedModules` refuses. */
  lemma AnalogBitRefused(connected: bv64)
    requires Bit(connected, 0) && forall a | 51 <= a < 64 :: !Bit(connected, a)
    ensures Decode(connected).Success? && Decode(connected).value.Some?
    ensures MasksOf(Decode(connected).value.value) == Failure(InvalidModule)
  {
    assert connected != 0;
    DecodeFails(connected);
    var found := DecodedUpTo(connected, 64).value;
    DecodedUpToMembers(connected, 64, AnalogPort);
    var j :| 0 <= j < |found| && found[j] == AnalogPort;
    AnalogPortRefused();
    var names := Decode(connected).value.value;
    ParseEachSome(ParseModule, names);
    assert ParseModule(names[j]).None?;
  }

  // ---------------------------------------------------------------------
  // Values of the module accessors (red.java:1149-1202)

  /** The colour word of `setRgb`: red + green * 2^8 + blue * 2^16. */
  function PackRgb(red: int, green: int, blue: int): int {
    red + green * 256 + blue * 65536
  }

  /** Three channels 0 .. 255 fit in 24 bits and are recovered from the word. */
  lemma PackRgbRoundTrip(red: int, green: int, blue: int)
    requires 0 <= red < 256 && 0 <= green < 256 && 0 <= blue < 256
    ensures 0 <= PackRgb(red, green, blue) < 0x100_0000
    ensures PackRgb(red, green, blue) % 256 == red
    ensures PackRgb(red, green, blue) / 256 % 256 == green
    ensures PackRgb(red, green, blue) / 65536 == blue
  {
    var w := PackRgb(red, green, blue);
    assert w == red + 256 * (green + 256 * blue);
    assert w / 256 == green + 256 * blue;
  }

  /** The three sensor bits of `getQtr`: bits 0, 1 and 2 of an integer value,
      all false for any other value. For negative values `/` and `%` here
      floor, which gives the bits of the two's complement the `&` of the
      source tests. */
  function QtrBits(v: Value): (r: seq<bool>)
    ensures |r| == 3
  {
    match v
    case Int(i) => [i % 2 == 1, i / 2 % 2 == 1, i / 4 % 2 == 1]
    case _ => [false, false, false]
  }

  /** The bits of a value 0 .. 7 are its binary digits. */
  lemma QtrBitsDigits(b0: bool, b1: bool, b2: bool)
    ensures QtrBits(Int((if b0 then 1 else 0) + (if b1 then 2 else 0) + (if b2 then 4 else 0))) == [b0, b1, b2]
  {
    var v := (if b0 then 1 else 0) + (if b1 then 2 else 0) + (if b2 then 4 else 0);
    assert v / 2 == (if b1 then 1 else 0) + (if b2 then 2 else 0);
    assert v / 4 == (if b2 then 1 else 0);
  }

  /** Only the low three bits of a value matter. */
  lemma QtrBitsPeriodic(i: int)
    ensures QtrBits(Int(i + 8)) == QtrBits(Int(i))
  {
    assert (i + 8) / 2 == i / 2 + 4 && (i + 8) / 4 == i / 4 + 2;
  }

  /** The three control loops of `setControlParameters*`. */
  datatype Loop = Position | Velocity | Torque

  /** The gain registers of a loop, in parameter order p, i, d, db, ff, ol
      (red.java:1040, 1059, 1078). */
  function ControlIndices(l: Loop): (r: seq<nat>)
    ensures |r| == 6 && forall j | 0 <= j < 6 :: 18 <= r[j] <= 38
  {
    match l
    case Position => [28, 29, 30, 21, 18, 24]
    case Velocity => [32, 33, 34, 22, 19, 25]
    case Torque => [36, 37, 38, 23, 20, 26]
  }

  /** The pairs of the parameters that are not null, in parameter order. */
  function Present(indices: seq<nat>, vals: seq<Option<bv32>>): (r: seq<(int, Value)>)
    requires |indices| == |vals|
    decreases |indices|
  {
    if |indices| == 0 then []
    else
      var n := |indices| - 1;
      var rest := Present(indices[..n], vals[..n]);
      match vals[n]
      case None => rest
      case Some(v) => rest + [(indices[n], Float(v))]
  }

  /** The loop of `setControlParameters*` (red.java:1043-1048): a pair for
      each parameter that is not null, in parameter order. */
  method ControlPairs(indices: seq<nat>, vals: seq<Option<bv32>>) returns (pairs: seq<(int, Value)>)
    requires |indices| == |vals|
    ensures pairs == Present(indices, vals)
  {
    pairs := [];
    for j := 0 to |indices|
      invariant pairs == Present(indices[..j], vals[..j])
    {
      assert indices[..j + 1][..j] == indices[..j] && vals[..j + 1][..j] == vals[..j];
      if vals[j].Some? {
        pairs := pairs + [(indices[j], Float(vals[j].value))];
      }
    }
    assert indices[..|indices|] == indices && vals[..|vals|] == vals;
  }

  /** A pair is kept exactly when its parameter is not null, and never more
      pairs than parameters. */
  lemma {:induction false} PresentMembers(indices: seq<nat>, vals: seq<Option<bv32>>, k: nat, v: bv32)
    requires |indices| == |vals|
    ensures |Present(indices, vals)| <= |indices|
    ensures (k, Float(v)) in Present(indices, vals) <==>
              exists j | 0 <= j < |indices| :: indices[j] == k && vals[j] == Some(v)
    decreases |indices|
  {
    if |indices| > 0 {
      var n := |indices| - 1;
      PresentMembers(indices[..n], vals[..n], k, v);
      if exists j | 0 <= j < |indices| :: indices[j] == k && vals[j] == Some(v) {
        var j :| 0 <= j < |indices| && indices[j] == k && vals[j] == Some(v);
        if j < n {
          assert indices[..n][j] == k && vals[..n][j] == Some(v);
        }
      }
    }
  }

  /** All parameters null leaves no pair; none null keeps every one. */
  lemma {:induction false} PresentExtremes(indices: seq<nat>, vals: seq<Option<bv32>>)
    requires |indices| == |vals|
    ensures (forall j | 0 <= j < |vals| :: vals[j].None?) ==> Present(indices, vals) == []
    ensures (forall j | 0 <= j < |vals| :: vals[j].Some?) ==>
              |Present(indices, vals)| == |indices| &&
              forall j | 0 <= j < |indices| :: Present(indices, vals)[j] == (indices[j], Float(vals[j].value))
    decreases |indices|
  {
    if |indices| > 0 {
      var n := |indices| - 1;
      PresentExtremes(indices[..n], vals[..n]);
      if forall j | 0 <= j < |vals| :: vals[j].Some? {
        assert forall j | 0 <= j < n :: vals[..n][j] == vals[j];
      }
      if forall j | 0 <= j < |vals| :: vals[j].None? {
        assert forall j | 0 <= j < n :: vals[..n][j] == vals[j];
      }
    }
  }
}
