/** Fetch-rule expressions: the parser of `--fargs`/`--frets` and the notation it reads. */
module FetchExpr {
  import opened Wrappers
  import opened FetchRules
  import KernelFetch

  datatype VarExpr = VarExpr(name: string, expr: string)

  datatype ParsedExpr =
    | Plain(funcname: string)                        // no variables given
    | Call(funcname: string, vars: seq<VarExpr>)
    | Imbalanced
    | InvalidVariable
    | Panicked                                       // `parseFetchExpr` indexes out of range

  // ---- strings ----

  function Find(s: string, c: char): nat
    ensures Find(s, c) <= |s|
  {
    if s == [] || s[0] == c then 0 else 1 + Find(s[1..], c)
  }

  /** `strings.Split` with a one-character separator. */
  function Split(s: string, sep: char): (parts: seq<string>)
    ensures |parts| >= 1
    decreases |s|
  {
    var i := Find(s, sep);
    if i == |s| then [s] else [s[..i]] + Split(s[i + 1..], sep)
  }

  /** `unicode.IsSpace`. */
  predicate IsSpace(c: char)
  {
    || c == ' ' || '\t' <= c <= '\r' || c == '\U{0085}' || c == '\U{00a0}'
    || c == '\U{1680}' || '\U{2000}' <= c <= '\U{200a}' || c == '\U{2028}' || c == '\U{2029}'
    || c == '\U{202f}' || c == '\U{205f}' || c == '\U{3000}'
  }

  function TrimSpace(s: string): string
    decreases |s|
  {
    if s != [] && IsSpace(s[0]) then TrimSpace(s[1..])
    else if s != [] && IsSpace(s[|s| - 1]) then TrimSpace(s[..|s| - 1])
    else s
  }

  // ---- `parseFetchExpr` ----

  function Depth(c: char, depth: nat): int
  {
    if c == ')' then depth + 1 else if c == '(' then depth - 1 else depth
  }

  /** Scanning backwards from `i` with `depth` parentheses open: where the last one closes. */
  function OpenParen(s: string, i: int, depth: nat): (r: Option<nat>)
    requires -1 <= i < |s| && depth > 0
    ensures r.Some? ==> r.value <= i
    decreases i + 1
  {
    if i < 0 then None
    else if Depth(s[i], depth) == 0 then Some(i)
    else OpenParen(s, i - 1, Depth(s[i], depth))
  }

  function ParseVars(parts: seq<string>): Option<seq<VarExpr>>
  {
    if parts == [] then Some([])
    else
      var vals := Split(parts[0], '=');
      if |vals| != 2 then None
      else
        match ParseVars(parts[1..])
        case None => None
        case Some(rest) => Some([VarExpr(TrimSpace(vals[0]), TrimSpace(vals[1]))] + rest)
  }

  function PrependedVars(done: seq<VarExpr>, rest: Option<seq<VarExpr>>): Option<seq<VarExpr>>
  {
    match rest
    case None => None
    case Some(vars) => Some(done + vars)
  }

  lemma NothingPrepended(rest: Option<seq<VarExpr>>)
    ensures PrependedVars([], rest) == rest
  {
    if rest.Some? { assert [] + rest.value == rest.value; }
  }

  function Parsed(s: string): ParsedExpr
  {
    if s == [] then Panicked
    else if s[|s| - 1] != ')' then Plain(s)
    else
      match OpenParen(s, |s| - 2, 1)
      case None => Imbalanced
      case Some(i) =>
        match ParseVars(Split(s[i + 1..|s| - 1], ','))
        case None => InvalidVariable
        case Some(vars) => Call(s[..i], vars)
  }

  method ParseFetchExpr(s: string) returns (r: ParsedExpr)
    ensures r == Parsed(s)
  {
    hide Split, TrimSpace;
    if |s| == 0 {
      return Panicked;
    }
    if s[|s| - 1] != ')' {
      return Plain(s);
    }
    var stack := [')'];
    var i := |s| - 2;
    while i >= 0
      invariant -1 <= i < |s| && |stack| > 0 && forall k | 0 <= k < |stack| :: stack[k] == ')'
      invariant OpenParen(s, |s| - 2, 1) == OpenParen(s, i, |stack|)
      decreases i
    {
      if s[i] == ')' {
        stack := stack + [')'];
      } else if s[i] == '(' {
        stack := stack[..|stack| - 1];
      }
      if |stack| == 0 {
        var vars: seq<VarExpr> := [];
        var parts := Split(s[i + 1..|s| - 1], ',');
        NothingPrepended(ParseVars(parts));
        for k := 0 to |parts|
          invariant ParseVars(parts) == PrependedVars(vars, ParseVars(parts[k..]))
        {
          assert parts[k..][0] == parts[k] && parts[k..][1..] == parts[k + 1..];
          var vals := Split(parts[k], '=');
          if |vals| != 2 {
            return InvalidVariable;
          }
          var v := VarExpr(TrimSpace(vals[0]), TrimSpace(vals[1]));
          assert forall rest: seq<VarExpr> :: vars + ([v] + rest) == (vars + [v]) + rest;
          vars := vars + [v];
        }
        assert parts[|parts|..] == [];
        return Call(s[..i], vars);
      }
      i := i - 1;
    }
    return Imbalanced;
  }

  // ---- `newFetchArg` ----

  datatype ParsedArg =
    | ArgOk(name: string, typ: string, size: nat, rules: seq<ArgRule>)
    | ArgError
    | ArgPanicked

  const REGISTERS: set<string> :=
    {"ax", "bx", "cx", "dx", "si", "di", "bp", "sp", "r8", "r9", "r10", "r11", "r12", "r13", "r14", "r15"}

  /** Bits of an accepted type; None when the type is refused. */
  function TypeBits(typ: string): Option<nat>
    requires typ != []
  {
    var width := typ[1..];
    if typ[0] == 'u' || typ[0] == 's' then
      if width == "8" then Some(8) else if width == "16" then Some(16)
      else if width == "32" then Some(32) else if width == "64" then Some(64) else None
    else if typ[0] == 'c' then
      if width == "8" then Some(8) else if width == "16" then Some(16)
      else if width == "32" then Some(32) else if width == "64" then Some(64)
      else if width == "128" then Some(128) else if width == "256" then Some(256)
      else if width == "512" then Some(512) else None
    else None
  }

  predicate IsDigit(c: char)
  {
    '0' <= c <= '9'
  }

  function DigitsValue(s: string): Option<nat>
  {
    if s == [] then Some(0)
    else
      match DigitsValue(s[..|s| - 1])
      case None => None
      case Some(n) => if IsDigit(s[|s| - 1]) then Some(10 * n + (s[|s| - 1] as int - '0' as int)) else None
  }

  const INT64: int := 0x8000_0000_0000_0000

  /** `strconv.ParseInt(s, 10, 64)`. */
  function ParseInt(s: string): Option<int>
  {
    if s == [] then None
    else
      var negative := s[0] == '-';
      var digits := if s[0] == '-' || s[0] == '+' then s[1..] else s;
      if digits == [] then None
      else
        match DigitsValue(digits)
        case None => None
        case Some(n) =>
          if negative then (if n <= INT64 then Some(0 - n) else None)
          else if n < INT64 then Some(n) else None
  }

  /** `newFetchOp`. */
  function FetchOp(op: string): Option<ArgRule>
    requires op != []
  {
    if op[0] == '%' then (if op[1..] in REGISTERS then Some(RegRule(op[1..])) else None)
    else
      var deref := op[0] == '*';
      match ParseInt(if deref then op[1..] else op)
      case None => None
      case Some(n) => Some(StackRule(Step(n, deref)))
  }

  predicate IsParen(c: char)
  {
    c == '(' || c == ')'
  }

  predicate AllNonEmpty(tokens: seq<string>)
  {
    forall i | 0 <= i < |tokens| :: tokens[i] != []
  }

  /** The maximal runs without parentheses, `buf` being the run in progress. */
  function Tokens(s: string, buf: string): (tokens: seq<string>)
    ensures AllNonEmpty(tokens)
    decreases |s|
  {
    if s == [] then (if buf == [] then [] else [buf])
    else if !IsParen(s[0]) then Tokens(s[1..], buf + [s[0]])
    else if buf == [] then Tokens(s[1..], [])
    else [buf] + Tokens(s[1..], [])
  }

  function FetchOps(tokens: seq<string>): Option<seq<ArgRule>>
    requires AllNonEmpty(tokens)
  {
    if tokens == [] then Some([])
    else
      match FetchOp(tokens[0])
      case None => None
      case Some(op) =>
        match FetchOps(tokens[1..])
        case None => None
        case Some(rest) => Some([op] + rest)
  }

  function Reverse<T>(s: seq<T>): (r: seq<T>)
    ensures |r| == |s|
  {
    if s == [] then [] else Reverse(s[1..]) + [s[0]]
  }

  function NewArg(name: string, statement: string): ParsedArg
  {
    var parts := Split(statement, ':');
    if |parts| != 2 then ArgError
    else if parts[1] == [] then ArgPanicked
    else
      match TypeBits(parts[1])
      case None => ArgError
      case Some(bits) =>
        match FetchOps(Tokens(parts[0], []))
        case None => ArgError
        case Some(ops) => ArgOk(name, parts[1], bits / 8, Reverse(ops))
  }

  predicate OnlyParens(s: string)
  {
    s != [] ==> IsParen(s[0]) && OnlyParens(s[1..])
  }

  lemma {:induction false} NoTokens(s: string, buf: string)
    ensures Tokens(s, buf) == [] <==> buf == [] && OnlyParens(s)
    decreases |s|
  {
    if s != [] { NoTokens(s[1..], if IsParen(s[0]) then [] else buf + [s[0]]); }
  }

  lemma {:induction false} OneRuleEach(tokens: seq<string>)
    requires AllNonEmpty(tokens)
    ensures FetchOps(tokens).Some? ==> |FetchOps(tokens).value| == |tokens|
  {
    hide FetchOp;
    if tokens != [] { OneRuleEach(tokens[1..]); }
  }

  /** An accepted argument has no rule at all exactly if its address is made of parentheses only;
   *  `setArgRules` then indexes into the empty list. */
  lemma NoRulesIff(name: string, statement: string)
    requires NewArg(name, statement).ArgOk?
    ensures NewArg(name, statement).rules == [] <==> OnlyParens(Split(statement, ':')[0])
  {
    hide TypeBits, FetchOps, Tokens, Split;
    var address := Split(statement, ':')[0];
    var tokens := Tokens(address, []);
    NoTokens(address, []);
    OneRuleEach(tokens);
    var ops := FetchOps(tokens).value;
    assert NewArg(name, statement).rules == Reverse(ops) && |Reverse(ops)| == |ops| == |tokens|;
  }

  /** `x=():u8` is accepted. */
  lemma EmptyAddressAccepted()
    ensures NewArg("x", "():u8") == ArgOk("x", "u8", 1, [])
  {
    var s := "():u8";
    assert Find(s[1..][1..], ':') == 0 && Find(s, ':') == 2;
    assert s[..2] == "()" && s[2 + 1..] == "u8";
    var t := "u8";
    assert t[1..] == "8" && t[1..][1..] == [];
    assert Find(t[1..], ':') == 1 && Find(t, ':') == 2;
    assert Split(t, ':') == [t] && Split(s, ':') == ["()", t];
    var p := "()";
    assert p[1..][1..] == [];
    assert Tokens(p, []) == Tokens(p[1..], []) == Tokens([], []) == [];
    assert TypeBits(t) == Some(8);
  }

  method NewFetchArg(name: string, statement: string) returns (r: ParsedArg)
    ensures r == NewArg(name, statement)
  {
    var parts := Split(statement, ':');
    if |parts| != 2 {
      return ArgError;
    }
    var argAddr, argType := parts[0], parts[1];
    if |argType| == 0 {
      return ArgPanicked;
    }
    var bits := TypeBits(argType);
    if bits.None? {
      return ArgError;
    }
    var rules := ParseOps(argAddr);
    if rules.None? {
      return ArgError;
    }
    var reversed := ReverseInPlace(rules.value);
    return ArgOk(name, argType, bits.value / 8, reversed);
  }

  /** The character loop of `newFetchArg`. */
  method ParseOps(argAddr: string) returns (r: Option<seq<ArgRule>>)
    ensures r == FetchOps(Tokens(argAddr, []))
  {
    hide FetchOp;
    var rules: seq<ArgRule> := [];
    var buf: string := [];
    ghost var goal := FetchOps(Tokens(argAddr, []));
    NoRulesYet(goal);
    for i := 0 to |argAddr|
      invariant goal == Prepended(rules, FetchOps(Tokens(argAddr[i..], buf)))
    {
      assert argAddr[i..][0] == argAddr[i] && argAddr[i..][1..] == argAddr[i + 1..];
      if !IsParen(argAddr[i]) {
        buf := buf + [argAddr[i]];
      } else if |buf| > 0 {
        var op := FetchOp(buf);
        FlushOp(rules, buf, Tokens(argAddr[i + 1..], []));
        if op.None? {
          return None;
        }
        rules := rules + [op.value];
        buf := [];
      }
    }
    assert argAddr[|argAddr|..] == [];
    if |buf| > 0 {
      var op := FetchOp(buf);
      FlushOp(rules, buf, []);
      assert [buf] + [] == [buf];
      if op.None? {
        return None;
      }
      rules := rules + [op.value];
    }
    assert rules + [] == rules;
    return Some(rules);
  }

  lemma FlushOp(done: seq<ArgRule>, token: string, rest: seq<string>)
    requires token != [] && AllNonEmpty(rest)
    ensures Prepended(done, FetchOps([token] + rest))
         == match FetchOp(token)
            case None => None
            case Some(op) => Prepended(done + [op], FetchOps(rest))
  {
    hide FetchOp;
    assert ([token] + rest)[1..] == rest;
    if FetchOp(token).Some? && FetchOps(rest).Some? {
      assert done + ([FetchOp(token).value] + FetchOps(rest).value) == (done + [FetchOp(token).value]) + FetchOps(rest).value;
    }
  }

  lemma NoRulesYet(rest: Option<seq<ArgRule>>)
    ensures Prepended([], rest) == rest
  {
    if rest.Some? { assert [] + rest.value == rest.value; }
  }

  function Prepended(done: seq<ArgRule>, rest: Option<seq<ArgRule>>): Option<seq<ArgRule>>
  {
    match rest
    case None => None
    case Some(ops) => Some(done + ops)
  }

  lemma {:induction false} ReverseAt<T>(s: seq<T>, k: nat)
    requires k < |s|
    ensures Reverse(s)[k] == s[|s| - 1 - k]
  {
    if k < |s| - 1 { ReverseAt(s[1..], k); }
  }

  /** The closing swap loop of `newFetchArg`. */
  method ReverseInPlace<T>(s: seq<T>) returns (r: seq<T>)
    ensures r == Reverse(s)
  {
    r := s;
    var i, j := 0, |s| - 1;
    while i < j
      invariant |r| == |s| && 0 <= i <= j + 1 && j == |s| - 1 - i
      invariant forall k | 0 <= k < i :: r[k] == s[|s| - 1 - k] && r[|s| - 1 - k] == s[k]
      invariant forall k | i <= k <= j :: r[k] == s[k]
    {
      var left, right := r[i], r[j];
      r := r[i := right][j := left];
      i, j := i + 1, j - 1;
    }
    forall k | 0 <= k < |s|
      ensures r[k] == Reverse(s)[k]
    {
      ReverseAt(s, k);
    }
  }

  // ---- the notation ----

  function Digit(d: nat): char
    requires d < 10
  {
    ('0' as int + d) as char
  }

  function Decimal(n: nat): (s: string)
    ensures s != []
  {
    if n < 10 then [Digit(n)] else Decimal(n / 10) + [Digit(n % 10)]
  }

  /** Offsets that fit 64 bits. */
  predicate FitsInt64(steps: seq<Step>)
  {
    forall i | 0 <= i < |steps| :: -INT64 <= steps[i].offset < INT64
  }

  predicate Spaces(s: string)
  {
    forall i | 0 <= i < |s| :: s[i] == ' '
  }

  function StepText(s: Step): string
  {
    (if s.deref then "*" else "") + SignedDecimal(s.offset)
  }

  function SignedDecimal(n: int): string
  {
    if n < 0 then "-" + Decimal(-n) else "+" + Decimal(n)
  }

  /** A register with steps applied to it, the last step outermost. */
  function InnerText(reg: string, steps: seq<Step>): string
    requires FitsInt64(steps)
  {
    if steps == [] then "%" + reg
    else StepText(steps[|steps| - 1]) + "(" + InnerText(reg, steps[..|steps| - 1]) + ")"
  }

  /** The types there are, with their sizes in bytes. */
  const TYPE_SIZES: map<string, nat> := map[
    "u8" := 1, "u16" := 2, "u32" := 4, "u64" := 8, "s8" := 1, "s16" := 2, "s32" := 4, "s64" := 8,
    "c8" := 1, "c16" := 2, "c32" := 4, "c64" := 8, "c128" := 16, "c256" := 32, "c512" := 64]

  /** Exactly these are accepted, each with its size. */
  lemma TypesAccepted(typ: string)
    requires typ != []
    ensures TypeBits(typ) == if typ in TYPE_SIZES then Some(8 * TYPE_SIZES[typ]) else None
  {
    var width := typ[1..];
    assert typ == [typ[0]] + width;
    forall k | k in TYPE_SIZES
      ensures k != [] && TypeBits(k) == Some(8 * TYPE_SIZES[k])
    {
      KnownType(k);
    }
    if TypeBits(typ).Some? { NamedType(typ[0], width); }
  }

  lemma KnownType(k: string)
    requires k in TYPE_SIZES
    ensures k != [] && TypeBits(k) == Some(8 * TYPE_SIZES[k])
  {
    assert k == [k[0]] + k[1..];
  }

  lemma NamedType(kind: char, width: string)
    requires TypeBits([kind] + width).Some?
    ensures [kind] + width in TYPE_SIZES
  {
    assert ([kind] + width)[1..] == width;
    assert ['u'] + "8" == "u8" && ['u'] + "16" == "u16" && ['u'] + "32" == "u32" && ['u'] + "64" == "u64";
    assert ['s'] + "8" == "s8" && ['s'] + "16" == "s16" && ['s'] + "32" == "s32" && ['s'] + "64" == "s64";
    assert ['c'] + "8" == "c8" && ['c'] + "16" == "c16" && ['c'] + "32" == "c32" && ['c'] + "64" == "c64";
    assert ['c'] + "128" == "c128" && ['c'] + "256" == "c256" && ['c'] + "512" == "c512";
  }

  /** The registers a rule may name are those the probes can read. */
  lemma RegistersAreKnown()
    ensures REGISTERS == KernelFetch.REGISTER_CONSTANTS.Keys
  {
  }

  datatype Rule = Rule(name: string, reg: string, steps: seq<Step>, typ: string)

  function ExprText(r: Rule): string
    requires FitsInt64(r.steps)
  {
    "(" + InnerText(r.reg, r.steps) + "):" + r.typ
  }

  predicate Printable(r: Rule)
  {
    && r.reg in REGISTERS
    && FitsInt64(r.steps)
    && r.typ in TYPE_SIZES
    && NameOk(r.name)
  }

  /** Free of delimiters and of surrounding space. */
  predicate NameOk(name: string)
  {
    && (forall i | 0 <= i < |name| :: name[i] !in {',', '=', '(', ')'})
    && (name != [] ==> !IsSpace(name[0]) && !IsSpace(name[|name| - 1]))
  }

  predicate AllPrintable(rules: seq<Rule>)
  {
    forall i | 0 <= i < |rules| :: Printable(rules[i])
  }

  function ArgText(r: Rule): string
    requires Printable(r)
  {
    r.name + "=" + ExprText(r)
  }

  function JoinArgs(rules: seq<Rule>): string
    requires AllPrintable(rules)
  {
    if rules == [] then ""
    else if |rules| == 1 then ArgText(rules[0])
    else ArgText(rules[0]) + ", " + JoinArgs(rules[1..])
  }

  function FullText(funcname: string, rules: seq<Rule>): string
    requires AllPrintable(rules)
  {
    funcname + "(" + JoinArgs(rules) + ")"
  }

  function AsArg(r: Rule): ParsedArg
    requires Printable(r)
  {
    ArgOk(r.name, r.typ, TYPE_SIZES[r.typ], [RegRule(r.reg)] + StackRules(r.steps))
  }

  // ---- numbers ----

  lemma {:induction false} DecimalValue(n: nat)
    ensures DigitsValue(Decimal(n)) == Some(n)
    ensures forall i | 0 <= i < |Decimal(n)| :: IsDigit(Decimal(n)[i])
  {
    var s := Decimal(n);
    if n < 10 {
      assert s[..|s| - 1] == [];
    } else {
      DecimalValue(n / 10);
      assert s[..|s| - 1] == Decimal(n / 10);
    }
  }

  /** A number is digits and nothing else; zeros before it change nothing. */
  lemma {:induction false} DigitsOnly(s: string)
    ensures DigitsValue(s).Some? <==> forall i | 0 <= i < |s| :: '0' <= s[i] <= '9'
    ensures DigitsValue("0" + s) == DigitsValue(s)
  {
    if s == [] {
      assert "0" + s == "0" && "0"[..0] == [];
    } else {
      var n := |s| - 1;
      DigitsOnly(s[..n]);
      assert ("0" + s)[..|s|] == "0" + s[..n];
      assert (forall i | 0 <= i < n :: s[..n][i] == s[i]);
    }
  }

  lemma NumberRead(offset: int, n: nat, number: string)
    requires -INT64 <= offset < INT64 && n == (if offset < 0 then -offset else offset)
    requires number == SignedDecimal(offset) && number[1..] == Decimal(n) && DigitsValue(Decimal(n)) == Some(n)
    ensures ParseInt(number) == Some(offset)
  {
    hide DigitsValue, Decimal;
  }

  lemma OpRoundTrip(s: Step)
    requires -INT64 <= s.offset < INT64
    ensures FetchOp(StepText(s)) == Some(StackRule(s))
    ensures StepText(s) != [] && NoParens(StepText(s)) && NoDelimiters(StepText(s))
  {
    hide DigitsValue, Decimal, ParseInt;
    var n := if s.offset < 0 then -s.offset else s.offset;
    DecimalValue(n);
    var number := SignedDecimal(s.offset);
    assert number[1..] == Decimal(n) && number[0] == (if s.offset < 0 then '-' else '+');
    NumberRead(s.offset, n, number);
    if s.deref {
      assert StepText(s) == "*" + number && StepText(s)[1..] == number;
    } else {
      assert StepText(s) == number && s == Step(s.offset, false);
    }
  }

  // ---- tokens ----

  predicate NoParens(s: string)
  {
    forall i | 0 <= i < |s| :: !IsParen(s[i])
  }

  predicate AllParens(s: string)
  {
    forall i | 0 <= i < |s| :: IsParen(s[i])
  }

  /** A run without parentheses, then anything that starts with one, or nothing. */
  lemma {:induction false} TokensRun(w: string, rest: string, buf: string)
    requires NoParens(w) && buf + w != [] && (rest == [] || IsParen(rest[0]))
    ensures Tokens(w + rest, buf) == [buf + w] + (if rest == [] then [] else Tokens(rest[1..], []))
    decreases |w|
  {
    if w == [] {
      assert w + rest == rest && buf + w == buf;
    } else {
      assert (w + rest)[0] == w[0] && (w + rest)[1..] == w[1..] + rest;
      assert buf + [w[0]] + w[1..] == buf + w;
      TokensRun(w[1..], rest, buf + [w[0]]);
    }
  }

  lemma {:induction false} TokensParens(s: string)
    requires AllParens(s)
    ensures Tokens(s, []) == []
    decreases |s|
  {
    if s != [] { TokensParens(s[1..]); }
  }

  /** The operations of an expression, outermost first. */
  function Ops(reg: string, steps: seq<Step>): seq<ArgRule>
  {
    if steps == [] then [RegRule(reg)] else [StackRule(steps[|steps| - 1])] + Ops(reg, steps[..|steps| - 1])
  }

  lemma {:induction false} InnerOps(reg: string, steps: seq<Step>, closing: string)
    requires reg in REGISTERS && FitsInt64(steps)
    requires AllParens(closing)
    ensures FetchOps(Tokens(InnerText(reg, steps) + closing, [])) == Some(Ops(reg, steps))
    decreases |steps|
  {
    hide StepText, Decimal, DigitsValue, FetchOp;
    if steps == [] {
      var w := "%" + reg;
      RegisterText(reg);
      TokensRun(w, closing, []);
      if closing != [] { TokensParens(closing[1..]); }
      assert [] + w == w;
      assert Tokens(w + closing, []) == [w];
      assert [w][1..] == [];
      OneOp(w);
    } else {
      var last, rest := steps[|steps| - 1], steps[..|steps| - 1];
      var w, tail := StepText(last), InnerText(reg, rest) + (")" + closing);
      OpRoundTrip(last);
      assert InnerText(reg, steps) + closing == w + ("(" + tail);
      TokensRun(w, "(" + tail, []);
      assert ("(" + tail)[1..] == tail && [] + w == w;
      InnerOps(reg, rest, ")" + closing);
      assert ([w] + Tokens(tail, []))[1..] == Tokens(tail, []);
    }
  }

  lemma OneOp(token: string)
    requires token != [] && FetchOp(token).Some?
    ensures FetchOps([token]) == Some([FetchOp(token).value])
  {
    hide FetchOp;
    assert [token][1..] == [] && [FetchOp(token).value] + [] == [FetchOp(token).value];
  }

  lemma RegisterText(reg: string)
    requires reg in REGISTERS
    ensures NoParens("%" + reg) && NoDelimiters("%" + reg)
    ensures FetchOp("%" + reg) == Some(RegRule(reg))
  {
    assert ("%" + reg)[1..] == reg;
  }

  lemma {:induction false} ReverseOps(reg: string, steps: seq<Step>)
    ensures Reverse(Ops(reg, steps)) == [RegRule(reg)] + StackRules(steps)
    decreases |steps|
  {
    if steps == [] {
      assert Ops(reg, steps)[1..] == [];
    } else {
      var rest := steps[..|steps| - 1];
      ReverseOps(reg, rest);
      assert Ops(reg, steps)[1..] == Ops(reg, rest);
      assert StackRules(steps) == StackRules(rest) + [StackRule(steps[|steps| - 1])];
    }
  }

  // ---- splitting ----

  predicate NoDelimiters(s: string)
  {
    forall i | 0 <= i < |s| :: s[i] !in {',', '=', ':'}
  }

  lemma {:induction false} FindAbsent(s: string, c: char)
    requires c !in s
    ensures Find(s, c) == |s|
  {
    if s != [] { FindAbsent(s[1..], c); }
  }

  lemma {:induction false} FindFirst(s: string, c: char, rest: string)
    requires c !in s
    ensures Find(s + [c] + rest, c) == |s|
  {
    var t := s + [c] + rest;
    if s != [] {
      assert t[0] == s[0] && t[1..] == s[1..] + [c] + rest;
      FindFirst(s[1..], c, rest);
    }
  }

  lemma SplitAbsent(s: string, c: char)
    requires c !in s
    ensures Split(s, c) == [s]
  {
    FindAbsent(s, c);
  }

  lemma SplitFirst(s: string, c: char, rest: string)
    requires c !in s
    ensures Split(s + [c] + rest, c) == [s] + Split(rest, c)
  {
    FindFirst(s, c, rest);
    var t := s + [c] + rest;
    assert t[..|s|] == s && t[|s| + 1..] == rest;
  }

  lemma TwoParts(a: string, c: char, b: string)
    requires c !in a && c !in b
    ensures Split(a + [c] + b, c) == [a, b]
  {
    SplitFirst(a, c, b);
    SplitAbsent(b, c);
  }

  lemma {:induction false} InnerDelimiters(reg: string, steps: seq<Step>)
    requires reg in REGISTERS && FitsInt64(steps)
    ensures NoDelimiters(InnerText(reg, steps))
    decreases |steps|
  {
    hide StepText, Decimal;
    if steps == [] {
      RegisterText(reg);
    } else {
      OpRoundTrip(steps[|steps| - 1]);
      InnerDelimiters(reg, steps[..|steps| - 1]);
    }
  }

  lemma TypeText(typ: string)
    requires typ in TYPE_SIZES
    ensures typ != [] && TypeBits(typ) == Some(8 * TYPE_SIZES[typ])
    ensures NoDelimiters(typ) && NoParens(typ) && !IsSpace(typ[|typ| - 1])
  {
    assert typ == [typ[0]] + typ[1..];
    KnownType(typ);
  }

  /** One rule, printed and read back. */
  lemma ArgRoundTrip(r: Rule)
    requires Printable(r)
    ensures NewArg(r.name, ExprText(r)) == AsArg(r)
  {
    hide InnerText, TypeBits, StepText;
    var addr := "(" + InnerText(r.reg, r.steps) + ")";
    InnerDelimiters(r.reg, r.steps);
    TypeText(r.typ);
    assert ExprText(r) == addr + ":" + r.typ;
    assert ':' !in addr;
    TwoParts(addr, ':', r.typ);
    InnerOps(r.reg, r.steps, ")");
    assert addr == "(" + (InnerText(r.reg, r.steps) + ")");
    assert addr[1..] == InnerText(r.reg, r.steps) + ")";
    ReverseOps(r.reg, r.steps);
  }

  // ---- parentheses ----

  /** Parentheses still open after reading `s` backwards with `depth` open; -1 once one too many
   *  has been closed. */
  function Backward(s: string, depth: nat): int
    decreases |s|
  {
    if s == [] then depth
    else
      var d := Depth(s[|s| - 1], depth);
      if d < 0 then -1 else Backward(s[..|s| - 1], d)
  }

  /** Every parenthesis of the text has its partner in the text. */
  predicate Balanced(s: string)
  {
    Backward(s, 0) == 0
  }

  lemma {:induction false} BackwardShift(s: string, depth: nat, k: nat)
    requires Backward(s, depth) >= 0
    ensures Backward(s, depth + k) == Backward(s, depth) + k
    decreases |s|
  {
    if s != [] {
      BackwardShift(s[..|s| - 1], Depth(s[|s| - 1], depth), k);
    }
  }

  lemma {:induction false} BackwardAppend(a: string, b: string, depth: nat)
    requires Backward(b, depth) >= 0
    ensures Backward(a + b, depth) == Backward(a, Backward(b, depth))
    decreases |b|
  {
    if b == [] {
      assert a + b == a;
    } else {
      var s := a + b;
      assert s[|s| - 1] == b[|b| - 1] && s[..|s| - 1] == a + b[..|b| - 1];
      BackwardAppend(a, b[..|b| - 1], Depth(b[|b| - 1], depth));
    }
  }

  lemma BalancedAppend(a: string, b: string)
    requires Balanced(a) && Balanced(b)
    ensures Balanced(a + b)
  {
    BackwardAppend(a, b, 0);
  }

  lemma BalancedWrap(a: string)
    requires Balanced(a)
    ensures Balanced("(" + a + ")")
  {
    assert Backward(")", 0) == 1 by { assert ")"[..0] == []; assert Backward([], 1) == 1; }
    BackwardShift(a, 0, 1);
    BackwardAppend("(" + a, ")", 0);
    BackwardAppend("(", a, 1);
    assert Backward("(", 1) == 0 by { assert "("[..0] == []; assert Backward([], 0) == 0; }
  }

  lemma {:induction false} BalancedPlain(s: string)
    requires NoParens(s)
    ensures Balanced(s)
    decreases |s|
  {
    if s != [] {
      BalancedPlain(s[..|s| - 1]);
    }
  }

  /** The backward scan passes over a balanced text. */
  lemma {:induction false} ScanSkipsBalanced(f: string, body: string, tail: string, depth: nat)
    requires depth > 0 && Backward(body, depth) > 0
    requires forall k | 0 <= k <= |body| :: Backward(body[k..], depth) > 0
    ensures OpenParen(f + "(" + body + tail, |f| + |body|, depth)
         == (if Backward(body, depth) == 1 then Some(|f|)
             else OpenParen(f + "(" + body + tail, |f| - 1, Backward(body, depth) - 1))
    decreases |body|
  {
    var s := f + "(" + body + tail;
    if body == [] {
      assert s[|f|] == '(';
    } else {
      var n := |body| - 1;
      var d := Depth(body[n], depth);
      assert s[|f| + |body|] == body[n];
      assert body[n..] == [body[n]] && [body[n]][..0] == [] && Backward(body[n..], depth) == (if d < 0 then -1 else Backward([], d));
      forall k | 0 <= k <= n
        ensures Backward(body[..n][k..], d) > 0
      {
        assert body[k..][..|body[k..]| - 1] == body[..n][k..];
        assert Backward(body[k..], depth) > 0;
      }
      ScanSkipsBalanced(f, body[..n], [body[n]] + tail, d);
      assert f + "(" + body[..n] + ([body[n]] + tail) == s;
    }
  }

  lemma {:induction false} SuffixesFrom(body: string, k: nat, depth: nat)
    requires Backward(body, depth) >= 0 && k <= |body|
    ensures Backward(body[k..], depth) >= 0
    decreases |body|
  {
    if k < |body| {
      var n := |body| - 1;
      assert body[k..][..|body[k..]| - 1] == body[..n][k..];
      SuffixesFrom(body[..n], k, Depth(body[n], depth));
    } else {
      assert body[k..] == [];
    }
  }

  /** What the scan finds is the partner of the last parenthesis... */
  lemma {:induction false} ScanFindsPartner(s: string, i: int, depth: nat)
    requires -1 <= i < |s| && depth > 0 && OpenParen(s, i, depth).Some?
    ensures var j := OpenParen(s, i, depth).value; s[j] == '(' && Backward(s[j + 1..i + 1], depth - 1) == 0
    decreases i + 1
  {
    var j := OpenParen(s, i, depth).value;
    if Depth(s[i], depth) == 0 {
      assert s[j + 1..i + 1] == [];
    } else {
      ScanFindsPartner(s, i - 1, Depth(s[i], depth));
      assert s[j + 1..i + 1][..i - j - 1] == s[j + 1..i];
    }
  }

  /** ...and it finds it whenever there is one. */
  lemma MatchingParen(f: string, body: string)
    requires Balanced(body)
    ensures var s := f + "(" + body + ")"; OpenParen(s, |s| - 2, 1) == Some(|f|)
  {
    BackwardShift(body, 0, 1);
    forall k | 0 <= k <= |body|
      ensures Backward(body[k..], 1) > 0
    {
      SuffixesFrom(body, k, 0);
      BackwardShift(body[k..], 0, 1);
    }
    ScanSkipsBalanced(f, body, ")", 1);
  }

  lemma {:induction false} InnerBalanced(reg: string, steps: seq<Step>)
    requires reg in REGISTERS && FitsInt64(steps)
    ensures Balanced(InnerText(reg, steps))
    decreases |steps|
  {
    hide StepText, Decimal, Backward;
    if steps == [] {
      RegisterText(reg);
      BalancedPlain("%" + reg);
    } else {
      var w, inner := StepText(steps[|steps| - 1]), InnerText(reg, steps[..|steps| - 1]);
      OpRoundTrip(steps[|steps| - 1]);
      BalancedPlain(w);
      InnerBalanced(reg, steps[..|steps| - 1]);
      BalancedWrap(inner);
      BalancedAppend(w, "(" + inner + ")");
      assert InnerText(reg, steps) == w + ("(" + inner + ")");
    }
  }

  lemma ArgBalanced(r: Rule)
    requires Printable(r)
    ensures Balanced(ArgText(r))
  {
    hide InnerText, TypeBits, Backward;
    var head, mid, tail := r.name + "=", "(" + InnerText(r.reg, r.steps) + ")", ":" + r.typ;
    TypeText(r.typ);
    InnerBalanced(r.reg, r.steps);
    BalancedWrap(InnerText(r.reg, r.steps));
    BalancedPlain(head);
    BalancedPlain(tail);
    BalancedAppend(head, mid);
    BalancedAppend(head + mid, tail);
    assert ArgText(r) == head + mid + tail;
  }

  lemma {:induction false} JoinBalanced(rules: seq<Rule>)
    requires AllPrintable(rules)
    ensures Balanced(JoinArgs(rules))
    decreases rules
  {
    hide ArgText, Backward;
    if |rules| == 0 {
      BalancedPlain("");
    } else if |rules| == 1 {
      ArgBalanced(rules[0]);
    } else {
      ArgBalanced(rules[0]);
      JoinBalanced(rules[1..]);
      BalancedPlain(", ");
      BalancedAppend(ArgText(rules[0]), ", ");
      BalancedAppend(ArgText(rules[0]) + ", ", JoinArgs(rules[1..]));
    }
  }

  // ---- what is refused ----

  function Occurs(s: string, c: char): nat
  {
    if s == [] then 0 else (if s[0] == c then 1 else 0) + Occurs(s[1..], c)
  }

  lemma {:induction false} OccursAfter(s: string, c: char)
    ensures Find(s, c) == |s| ==> Occurs(s, c) == 0
    ensures Find(s, c) < |s| ==> Occurs(s, c) == 1 + Occurs(s[Find(s, c) + 1..], c)
  {
    if s != [] && s[0] != c {
      OccursAfter(s[1..], c);
      var i := Find(s[1..], c);
      if i < |s| - 1 { assert s[1..][i + 1..] == s[i + 2..]; }
    }
  }

  /** A text is split at every occurrence of the separator and nowhere else. */
  lemma {:induction false} SplitCount(s: string, c: char)
    ensures |Split(s, c)| == 1 + Occurs(s, c)
    decreases |s|
  {
    OccursAfter(s, c);
    if Find(s, c) < |s| { SplitCount(s[Find(s, c) + 1..], c); }
  }

  /** A list of variables is accepted if and only if each has exactly one equals sign. */
  lemma {:induction false} VarsAccepted(parts: seq<string>)
    ensures ParseVars(parts).Some? <==> forall i | 0 <= i < |parts| :: Occurs(parts[i], '=') == 1
  {
    hide Split, TrimSpace, Occurs;
    if parts != [] {
      SplitCount(parts[0], '=');
      VarsAccepted(parts[1..]);
      assert forall i | 0 < i < |parts| :: parts[i] == parts[1..][i - 1];
    }
  }

  /** The address and the type of a rule, if it has exactly one colon, and what becomes of it: it is
   *  accepted exactly if the type is one of the fifteen and every part of the address is an operation. */
  lemma ArgAccepted(name: string, statement: string)
    ensures Occurs(statement, ':') != 1 ==> NewArg(name, statement) == ArgError
    ensures Occurs(statement, ':') == 1 ==>
              && |Split(statement, ':')| == 2
              && var address, typ := Split(statement, ':')[0], Split(statement, ':')[1];
                 && (NewArg(name, statement).ArgPanicked? <==> typ == [])
                 && (NewArg(name, statement).ArgOk? <==> typ in TYPE_SIZES && FetchOps(Tokens(address, [])).Some?)
  {
    hide Split, Occurs, FetchOps, Tokens, TypeBits;
    SplitCount(statement, ':');
    if |Split(statement, ':')| == 2 && Split(statement, ':')[1] != [] { TypesAccepted(Split(statement, ':')[1]); }
    NoEmptyType();
  }

  lemma NoEmptyType()
    ensures [] !in TYPE_SIZES
  {
    forall k | k in TYPE_SIZES
      ensures k != []
    {
      KnownType(k);
    }
  }

  // ---- the argument list ----

  lemma ArgSplits(r: Rule, space: string)
    requires Printable(r) && Spaces(space)
    ensures ',' !in space + ArgText(r)
    ensures Split(space + ArgText(r), '=') == [space + r.name, ExprText(r)]
  {
    hide InnerText, TypeBits;
    InnerDelimiters(r.reg, r.steps);
    TypeText(r.typ);
    assert NoDelimiters(InnerText(r.reg, r.steps)) && '=' !in ExprText(r) && ',' !in ExprText(r);
    assert '=' !in space + r.name;
    assert space + ArgText(r) == (space + r.name) + ['='] + ExprText(r);
    TwoParts(space + r.name, '=', ExprText(r));
  }

  lemma {:induction false} TrimLeading(space: string, s: string)
    requires Spaces(space)
    requires s != [] ==> !IsSpace(s[0]) && !IsSpace(s[|s| - 1])
    ensures TrimSpace(space + s) == s
    decreases |space|
  {
    if space == [] {
      assert space + s == s;
    } else {
      assert (space + s)[1..] == space[1..] + s;
      TrimLeading(space[1..], s);
    }
  }

  lemma TrimName(r: Rule, space: string)
    requires Printable(r) && Spaces(space)
    ensures TrimSpace(space + r.name) == r.name
  {
    hide TypeBits, TrimSpace;
    TrimLeading(space, r.name);
  }

  lemma TrimExpr(r: Rule)
    requires Printable(r)
    ensures TrimSpace(ExprText(r)) == ExprText(r)
  {
    hide InnerText, TypeBits;
    TypeText(r.typ);
    var e := ExprText(r);
    assert e[0] == '(' && e[|e| - 1] == r.typ[|r.typ| - 1];
  }

  function AsVars(rules: seq<Rule>): (vars: seq<VarExpr>)
    requires AllPrintable(rules)
    ensures |vars| == |rules|
    ensures forall i | 0 <= i < |rules| :: vars[i] == VarExpr(rules[i].name, ExprText(rules[i]))
  {
    if rules == [] then [] else [VarExpr(rules[0].name, ExprText(rules[0]))] + AsVars(rules[1..])
  }

  lemma {:induction false} VarsRoundTrip(rules: seq<Rule>, space: string)
    requires rules != [] && AllPrintable(rules) && Spaces(space)
    ensures ParseVars(Split(space + JoinArgs(rules), ',')) == Some(AsVars(rules))
    decreases rules
  {
    hide ArgText, ExprText, TrimSpace, Find, Printable;
    var r := rules[0];
    ArgSplits(r, space);
    TrimName(r, space);
    TrimExpr(r);
    var part := space + ArgText(r);
    if |rules| == 1 {
      SplitAbsent(part, ',');
      assert rules[1..] == [] && [part][1..] == [];
    } else {
      var rest := rules[1..];
      assert space + JoinArgs(rules) == part + [','] + (" " + JoinArgs(rest));
      SplitFirst(part, ',', " " + JoinArgs(rest));
      VarsRoundTrip(rest, " ");
      var parts := Split(" " + JoinArgs(rest), ',');
      assert ([part] + parts)[1..] == parts;
    }
  }

  lemma CallRoundTrip(funcname: string, rules: seq<Rule>)
    requires rules != [] && AllPrintable(rules)
    ensures Parsed(FullText(funcname, rules)) == Call(funcname, AsVars(rules))
  {
    hide JoinArgs, Printable, OpenParen, ParseVars, Split, AsVars;
    var s, body := FullText(funcname, rules), JoinArgs(rules);
    JoinBalanced(rules);
    MatchingParen(funcname, body);
    assert s[|s| - 1] == ')' && s[|funcname| + 1..|s| - 1] == body && s[..|funcname|] == funcname;
    VarsRoundTrip(rules, "");
    assert "" + body == body;
  }

  /** Fetch rules round-trip. Whatever parentheses a function's name contains, printing the name
   *  with a list of rules and parsing the text gives back the name and the variables, and each
   *  variable's expression gives back its rule. */
  lemma FetchExprRoundTrip(funcname: string, rules: seq<Rule>)
    requires rules != [] && AllPrintable(rules)
    ensures Parsed(FullText(funcname, rules)) == Call(funcname, AsVars(rules))
    ensures forall i | 0 <= i < |rules| ::
              NewArg(AsVars(rules)[i].name, AsVars(rules)[i].expr) == AsArg(rules[i])
  {
    hide ExprText, NewArg, Printable, Parsed, FullText, AsArg;
    CallRoundTrip(funcname, rules);
    forall i | 0 <= i < |rules|
      ensures NewArg(AsVars(rules)[i].name, AsVars(rules)[i].expr) == AsArg(rules[i])
    {
      ArgRoundTrip(rules[i]);
    }
  }
}
