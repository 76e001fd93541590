/** The scanner that rejects repeated object names before parsing would silently keep only the
    last of them (section 4 of RFC 8259 leaves such objects unpredictable). */
module DuplicateKeys {
  import opened Outcomes

  datatype Token = OpenBrace | CloseBrace | OpenBracket | CloseBracket | Comma | Colon | Quoted(raw: string)

  datatype Member = Member(name: string, value: Json)

  /** Numbers and literals are `Atom`s: they contain no token the scanner looks at. */
  datatype Json = Atom | Text(raw: string) | Array(items: seq<Json>) | Object(members: seq<Member>)

  // ----- Token streams of JSON values

  function Width(v: Json): nat {
    match v
    case Array(items) => |items| + 1
    case Object(members) => |members| + 1
    case _ => 1
  }

  function Tokens(v: Json): seq<Token>
    decreases v, Width(v)
  {
    match v
    case Atom => []
    case Text(raw) => [Quoted(raw)]
    case Array(items) => [OpenBracket] + ItemTokens(v, |items|) + [CloseBracket]
    case Object(members) => [OpenBrace] + MemberTokens(v, |members|) + [CloseBrace]
  }

  function Separator(n: nat): seq<Token> {
    if n == 0 then [] else [Comma]
  }

  /** The first `n` items of an array, separated by commas. */
  function ItemTokens(v: Json, n: nat): seq<Token>
    requires v.Array? && n <= |v.items|
    decreases v, n
  {
    if n == 0 then [] else ItemTokens(v, n - 1) + Separator(n - 1) + Tokens(v.items[n - 1])
  }

  function MemberTokens(v: Json, n: nat): seq<Token>
    requires v.Object? && n <= |v.members|
    decreases v, n
  {
    if n == 0 then []
    else
      var member := v.members[n - 1];
      MemberTokens(v, n - 1) + Separator(n - 1) + [Quoted(member.name), Colon] + Tokens(member.value)
  }

  // ----- Repeated names

  /** Some object at any depth has two members with the same unescaped name. */
  ghost predicate Repeats(unescape: string -> string, v: Json) {
    match v
    case Array(items) => exists i | 0 <= i < |items| :: Repeats(unescape, items[i])
    case Object(members) =>
      || RepeatedName(unescape, members)
      || exists i | 0 <= i < |members| :: Repeats(unescape, members[i].value)
    case _ => false
  }

  ghost predicate RepeatedName(unescape: string -> string, members: seq<Member>) {
    exists i, j | 0 <= i < j < |members| :: unescape(members[i].name) == unescape(members[j].name)
  }

  // ----- The scanner

  /** An open array or object; an object remembers its names and whether one comes next. */
  datatype Frame = Frame(names: Option<set<string>>, expectsName: bool)

  /** One token.  `None` is the rejection. */
  function Scan(unescape: string -> string, stack: seq<Frame>, token: Token): Option<seq<Frame>> {
    var n := |stack| - 1;
    match token
    case OpenBrace => Some(stack + [Frame(Some({}), true)])
    case OpenBracket => Some(stack + [Frame(None, false)])
    case CloseBrace => Some(if n < 0 then stack else stack[..n])
    case CloseBracket => Some(if n < 0 then stack else stack[..n])
    case Comma => Some(if n >= 0 && stack[n].names.Some? then stack[n := stack[n].(expectsName := true)] else stack)
    case Colon => Some(stack)
    case Quoted(raw) =>
      if n >= 0 && stack[n].names.Some? && stack[n].expectsName then
        if unescape(raw) in stack[n].names.value then None
        else Some(stack[n := Frame(Some(stack[n].names.value + {unescape(raw)}), false)])
      else Some(stack)
  }

  function ScanAll(unescape: string -> string, stack: seq<Frame>, tokens: seq<Token>): Option<seq<Frame>> {
    if tokens == [] then Some(stack)
    else
      var before := ScanAll(unescape, stack, tokens[..|tokens| - 1]);
      if before.None? then None else Scan(unescape, before.value, tokens[|tokens| - 1])
  }

  method RejectDuplicateKeys(unescape: string -> string, tokens: seq<Token>) returns (accepted: bool)
    ensures accepted <==> ScanAll(unescape, [], tokens).Some?
  {
    var stack: seq<Frame> := [];
    for i := 0 to |tokens|
      invariant ScanAll(unescape, [], tokens[..i]) == Some(stack)
    {
      assert tokens[..i + 1][..i] == tokens[..i];
      var n := |stack| - 1;
      match tokens[i] {
        case OpenBrace => stack := stack + [Frame(Some({}), true)];
        case OpenBracket => stack := stack + [Frame(None, false)];
        case CloseBrace => if n >= 0 { stack := stack[..n]; }
        case CloseBracket => if n >= 0 { stack := stack[..n]; }
        case Comma =>
          if n >= 0 && stack[n].names.Some? { stack := stack[n := stack[n].(expectsName := true)]; }
        case Colon =>
        case Quoted(raw) =>
          if n >= 0 && stack[n].names.Some? && stack[n].expectsName {
            var name := unescape(raw);
            if name in stack[n].names.value {
              Rejected(unescape, tokens, i + 1);
              return false;
            }
            stack := stack[n := Frame(Some(stack[n].names.value + {name}), false)];
          }
      }
    }
    assert tokens[..|tokens|] == tokens;
    accepted := true;
  }

  lemma {:induction false} Rejected(unescape: string -> string, tokens: seq<Token>, i: nat)
    requires i <= |tokens| && ScanAll(unescape, [], tokens[..i]).None?
    ensures ScanAll(unescape, [], tokens).None?
    decreases |tokens| - i
  {
    if i == |tokens| {
      assert tokens[..i] == tokens;
    } else {
      assert tokens[..i + 1][..i] == tokens[..i];
      Rejected(unescape, tokens, i + 1);
    }
  }

  // ----- Correctness

  /** Scanning on from an earlier outcome. */
  function Then(unescape: string -> string, before: Option<seq<Frame>>, tokens: seq<Token>): Option<seq<Frame>> {
    if before.None? then None else ScanAll(unescape, before.value, tokens)
  }

  lemma {:induction false} ScanAppended(unescape: string -> string, stack: seq<Frame>, a: seq<Token>, b: seq<Token>)
    ensures ScanAll(unescape, stack, a + b) == Then(unescape, ScanAll(unescape, stack, a), b)
    decreases |b|
  {
    if b == [] {
      assert a + b == a;
    } else {
      var n := |b| - 1;
      assert (a + b)[..|a| + n] == a + b[..n];
      ScanAppended(unescape, stack, a, b[..n]);
    }
  }

  lemma ScanOne(unescape: string -> string, stack: seq<Frame>, token: Token)
    ensures ScanAll(unescape, stack, [token]) == Scan(unescape, stack, token)
  {
    assert [token][..0] == [];
    assert ScanAll(unescape, stack, [token][..0]) == Some(stack);
  }

  /** No name is expected here, so a value's own strings are ignored. */
  predicate AwaitsValue(stack: seq<Frame>) {
    stack == [] || stack[|stack| - 1].names.None? || !stack[|stack| - 1].expectsName
  }

  ghost function Names(unescape: string -> string, members: seq<Member>): set<string> {
    set i | 0 <= i < |members| :: unescape(members[i].name)
  }

  ghost predicate RepeatsAmong(unescape: string -> string, v: Json, n: nat)
    requires v.Object? && n <= |v.members|
  {
    RepeatedName(unescape, v.members[..n]) || exists i | 0 <= i < n :: Repeats(unescape, v.members[i].value)
  }

  /** Scanning a value either rejects it for a repeated name or leaves the stack as it was. */
  lemma {:induction false} ScanValue(unescape: string -> string, stack: seq<Frame>, v: Json)
    requires AwaitsValue(stack)
    ensures ScanAll(unescape, stack, Tokens(v)) == if Repeats(unescape, v) then None else Some(stack)
    decreases v, Width(v)
  {
    match v
    case Atom =>
    case Text(raw) => ScanOne(unescape, stack, Quoted(raw));
    case Array(items) =>
      ScanItems(unescape, stack + [Frame(None, false)], v, |items|);
      ArrayCloses(unescape, stack, v);
    case Object(members) =>
      ScanMembers(unescape, stack, v, |members|);
      ObjectCloses(unescape, stack, v);
  }

  lemma {:induction false} ArrayCloses(unescape: string -> string, stack: seq<Frame>, v: Json)
    requires v.Array?
    requires var entered := stack + [Frame(None, false)];
             ScanAll(unescape, entered, ItemTokens(v, |v.items|))
             == if ItemRepeats(unescape, v, |v.items|) then None else Some(entered)
    ensures ScanAll(unescape, stack, Tokens(v)) == if Repeats(unescape, v) then None else Some(stack)
  {
    var entered := stack + [Frame(None, false)];
    Bracketed(unescape, stack, entered, OpenBracket, ItemTokens(v, |v.items|), CloseBracket);
    assert entered[..|stack|] == stack;
  }

  lemma {:induction false} ObjectCloses(unescape: string -> string, stack: seq<Frame>, v: Json)
    requires v.Object?
    requires ScanAll(unescape, stack + [Frame(Some({}), true)], MemberTokens(v, |v.members|))
          == AfterMembers(unescape, stack, v, |v.members|)
    ensures ScanAll(unescape, stack, Tokens(v)) == if Repeats(unescape, v) then None else Some(stack)
  {
    Bracketed(unescape, stack, stack + [Frame(Some({}), true)], OpenBrace, MemberTokens(v, |v.members|), CloseBrace);
    assert v.members[..|v.members|] == v.members;
  }

  lemma Bracketed(
    unescape: string -> string, stack: seq<Frame>, entered: seq<Frame>, first: Token, inner: seq<Token>, last: Token)
    requires Scan(unescape, stack, first) == Some(entered)
    ensures ScanAll(unescape, stack, [first] + inner + [last])
         == (var filled := ScanAll(unescape, entered, inner);
             if filled.None? then None else Scan(unescape, filled.value, last))
  {
    ScanOne(unescape, stack, first);
    ScanAppended(unescape, stack, [first], inner);
    ScanAppended(unescape, stack, [first] + inner, [last]);
    var filled := ScanAll(unescape, entered, inner);
    if filled.Some? {
      ScanOne(unescape, filled.value, last);
    }
  }

  ghost predicate ItemRepeats(unescape: string -> string, v: Json, n: nat)
    requires v.Array? && n <= |v.items|
  {
    exists i | 0 <= i < n :: Repeats(unescape, v.items[i])
  }

  lemma OneMoreItem(unescape: string -> string, v: Json, n: nat)
    requires v.Array? && 0 < n <= |v.items|
    ensures ItemRepeats(unescape, v, n) <==> ItemRepeats(unescape, v, n - 1) || Repeats(unescape, v.items[n - 1])
  {
  }

  lemma {:induction false} IgnoredSeparator(unescape: string -> string, stack: seq<Frame>, n: nat)
    requires stack != [] && stack[|stack| - 1].names.None?
    ensures ScanAll(unescape, stack, Separator(n)) == Some(stack)
  {
    ScanOne(unescape, stack, Comma);
  }

  lemma {:induction false} ScanItem(
    unescape: string -> string, stack: seq<Frame>, before: seq<Token>, n: nat, item: seq<Token>)
    requires stack != [] && stack[|stack| - 1].names.None?
    requires ScanAll(unescape, stack, before).Some? ==> ScanAll(unescape, stack, before) == Some(stack)
    ensures ScanAll(unescape, stack, before + Separator(n) + item)
         == Then(unescape, ScanAll(unescape, stack, before), item)
  {
    ScanAppended(unescape, stack, before, Separator(n));
    ScanAppended(unescape, stack, before + Separator(n), item);
    IgnoredSeparator(unescape, stack, n);
  }

  lemma {:induction false} ScanItems(unescape: string -> string, stack: seq<Frame>, v: Json, n: nat)
    requires v.Array? && n <= |v.items| && stack != [] && stack[|stack| - 1].names.None?
    ensures ScanAll(unescape, stack, ItemTokens(v, n)) == if ItemRepeats(unescape, v, n) then None else Some(stack)
    decreases v, n
  {
    if n > 0 {
      ScanItems(unescape, stack, v, n - 1);
      OneMoreItem(unescape, v, n);
      ScanItem(unescape, stack, ItemTokens(v, n - 1), n - 1, Tokens(v.items[n - 1]));
      ScanValue(unescape, stack, v.items[n - 1]);
    }
  }

  /** After `n` members the open object knows exactly their names. */
  ghost function AfterMembers(unescape: string -> string, stack: seq<Frame>, v: Json, n: nat): Option<seq<Frame>>
    requires v.Object? && n <= |v.members|
  {
    if RepeatsAmong(unescape, v, n) then None else Some(stack + [Frame(Some(Names(unescape, v.members[..n])), n == 0)])
  }

  lemma {:induction false} ScanMembers(unescape: string -> string, stack: seq<Frame>, v: Json, n: nat)
    requires v.Object? && n <= |v.members|
    ensures ScanAll(unescape, stack + [Frame(Some({}), true)], MemberTokens(v, n))
         == AfterMembers(unescape, stack, v, n)
    decreases v, n
  {
    if n > 0 {
      ScanMembers(unescape, stack, v, n - 1);
      var member, before := v.members[n - 1], ScanAll(unescape, stack + [Frame(Some({}), true)],
                                                      MemberTokens(v, n - 1));
      OneMoreMember(unescape, v, n);
      ScanMember(unescape, stack + [Frame(Some({}), true)], MemberTokens(v, n - 1), n - 1, member);
      if !RepeatsAmong(unescape, v, n - 1) {
        var names := Names(unescape, v.members[..n - 1]);
        var named := stack + [Frame(Some(names + {unescape(member.name)}), false)];
        ScanNamed(unescape, stack, names, n - 1, member.name);
        ScanValue(unescape, named, member.value);
      }
    } else {
      assert Names(unescape, v.members[..0]) == {};
    }
  }

  lemma ScanNamed(unescape: string -> string, stack: seq<Frame>, names: set<string>, n: nat, name: string)
    ensures Then(unescape, ScanAll(unescape, stack + [Frame(Some(names), n == 0)], Separator(n)), [Quoted(name), Colon])
         == if unescape(name) in names then None else Some(stack + [Frame(Some(names + {unescape(name)}), false)])
  {
    ScanSeparator(unescape, stack, names, n);
    ScanName(unescape, stack, names, name);
  }

  lemma ScanMember(unescape: string -> string, stack: seq<Frame>, before: seq<Token>, n: nat, member: Member)
    ensures ScanAll(unescape, stack, before + Separator(n) + [Quoted(member.name), Colon] + Tokens(member.value))
         == Then(unescape, Then(unescape, Then(unescape, ScanAll(unescape, stack, before), Separator(n)),
                                [Quoted(member.name), Colon]), Tokens(member.value))
  {
    ScanAppended(unescape, stack, before, Separator(n));
    ScanAppended(unescape, stack, before + Separator(n), [Quoted(member.name), Colon]);
    ScanAppended(unescape, stack, before + Separator(n) + [Quoted(member.name), Colon], Tokens(member.value));
  }

  lemma ScanSeparator(unescape: string -> string, stack: seq<Frame>, names: set<string>, n: nat)
    ensures ScanAll(unescape, stack + [Frame(Some(names), n == 0)], Separator(n))
         == Some(stack + [Frame(Some(names), true)])
  {
    var entered := stack + [Frame(Some(names), n == 0)];
    ScanOne(unescape, entered, Comma);
    assert entered[|stack| := Frame(Some(names), true)] == stack + [Frame(Some(names), true)];
  }

  lemma ScanName(unescape: string -> string, stack: seq<Frame>, names: set<string>, name: string)
    ensures ScanAll(unescape, stack + [Frame(Some(names), true)], [Quoted(name), Colon])
         == if unescape(name) in names then None else Some(stack + [Frame(Some(names + {unescape(name)}), false)])
  {
    var entered := stack + [Frame(Some(names), true)];
    ScanOne(unescape, entered, Quoted(name));
    ScanAppended(unescape, entered, [Quoted(name)], [Colon]);
    assert [Quoted(name), Colon] == [Quoted(name)] + [Colon];
    var named := stack + [Frame(Some(names + {unescape(name)}), false)];
    assert entered[|stack| := Frame(Some(names + {unescape(name)}), false)] == named;
    ScanOne(unescape, named, Colon);
  }

  lemma NameKnown(unescape: string -> string, members: seq<Member>, name: string)
    ensures name in Names(unescape, members) <==> exists i :: 0 <= i < |members| && unescape(members[i].name) == name
  {
  }

  lemma OneMoreName(unescape: string -> string, members: seq<Member>, member: Member)
    ensures Names(unescape, members + [member]) == Names(unescape, members) + {unescape(member.name)}
    ensures RepeatedName(unescape, members + [member])
       <==> RepeatedName(unescape, members) || unescape(member.name) in Names(unescape, members)
  {
    var after, n := members + [member], |members|;
    assert after[n] == member && forall i | 0 <= i < n :: after[i] == members[i];
    forall x
      ensures x in Names(unescape, after) <==> x in Names(unescape, members) + {unescape(member.name)}
    {
      NameKnown(unescape, after, x);
      NameKnown(unescape, members, x);
      if i :| 0 <= i < n && unescape(members[i].name) == x {
        assert unescape(after[i].name) == x;
      }
      assert x == unescape(member.name) ==> unescape(after[n].name) == x;
    }
    if RepeatedName(unescape, members) {
      var i, j :| 0 <= i < j < n && unescape(members[i].name) == unescape(members[j].name);
      assert unescape(after[i].name) == unescape(after[j].name);
    }
    NameKnown(unescape, members, unescape(member.name));
    if i :| 0 <= i < n && unescape(members[i].name) == unescape(member.name) {
      assert unescape(after[i].name) == unescape(after[n].name);
    }
  }

  lemma OneMoreMember(unescape: string -> string, v: Json, n: nat)
    requires v.Object? && 0 < n <= |v.members|
    ensures var member, names := v.members[n - 1], Names(unescape, v.members[..n - 1]);
            && Names(unescape, v.members[..n]) == names + {unescape(member.name)}
            && (RepeatsAmong(unescape, v, n) <==>
                  || RepeatsAmong(unescape, v, n - 1)
                  || unescape(member.name) in names
                  || Repeats(unescape, member.value))
  {
    assert v.members[..n] == v.members[..n - 1] + [v.members[n - 1]];
    OneMoreName(unescape, v.members[..n - 1], v.members[n - 1]);
  }

  /** A document is rejected exactly when some object in it repeats a name. */
  lemma RejectedExactlyWhenRepeated(unescape: string -> string, v: Json)
    ensures ScanAll(unescape, [], Tokens(v)).None? <==> Repeats(unescape, v)
  {
    ScanValue(unescape, [], v);
  }
}
