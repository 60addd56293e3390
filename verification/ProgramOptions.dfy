// Parsing the command line: options and their values are taken out, and the other arguments are moved to the front.
module ProgramOptions {
  import opened Codec

  /** How many of the `cnt` tokens behind an option are its values, or that the option is not accepted.
      It may depend on all tokens before, as that of an option given twice does. */
  type Taker = (seq<string>, nat, nat) -> Option<nat>

  predicate Modest(take: Taker, argv: seq<string>) {
    forall from: nat, cnt: nat | from <= |argv| && cnt <= |argv| - from ::
      take(argv, from, cnt).Some? ==> take(argv, from, cnt).value <= cnt
  }

  predicate IsFlag(token: string) {
    token != "" && token[0] == '-'
  }

  /** The end of the tokens from `from` on that could be values. */
  function ValuesEnd(argv: seq<string>, from: nat): (to: nat)
    requires from <= |argv|
    ensures from <= to <= |argv|
    decreases |argv| - from
  {
    if from < |argv| && !IsFlag(argv[from]) then ValuesEnd(argv, from + 1) else from
  }

  datatype Role = Positional | Option | Value | EndOfOptions

  function Repeat(role: Role, n: nat): (s: seq<Role>)
    ensures |s| == n
  {
    seq(n, _ => role)
  }

  /** The role of a token, how many tokens behind it are its values, and whether options may follow. */
  datatype Turn = Turn(role: Role, values: nat, flags: bool)

  function TurnRoles(turn: Turn): (roles: seq<Role>)
    ensures |roles| == 1 + turn.values
  {
    [turn.role] + Repeat(Value, turn.values)
  }

  function TurnAt(take: Taker, argv: seq<string>, from: nat, flags: bool): (turn: Codec.Option<Turn>)
    requires from < |argv| && Modest(take, argv)
    ensures turn.Some? ==> from + 1 + turn.value.values <= |argv|
  {
    if !flags || !IsFlag(argv[from]) then Some(Turn(Positional, 0, flags))
    else if argv[from] == "--" then Some(Turn(EndOfOptions, 0, false))
    else
      var taken := take(argv, from + 1, ValuesEnd(argv, from + 1) - (from + 1));
      if taken.None? then None else Some(Turn(Option, taken.value, flags))
  }

  /** The role of each token from `from` on; None if an option is not accepted. */
  function Roles(take: Taker, argv: seq<string>, from: nat, flags: bool): (roles: Codec.Option<seq<Role>>)
    requires from <= |argv| && Modest(take, argv)
    ensures roles.Some? ==> |roles.value| == |argv| - from
    decreases |argv| - from
  {
    if from == |argv| then Some([])
    else
      var turn := TurnAt(take, argv, from, flags);
      if turn.None? then None
      else Put(TurnRoles(turn.value), Roles(take, argv, from + 1 + turn.value.values, turn.value.flags))
  }

  function Put<T>(first: seq<T>, rest: Codec.Option<seq<T>>): (all: Codec.Option<seq<T>>)
    ensures first == [] ==> all == rest
    ensures rest == Some([]) ==> all == Some(first)
  {
    assert rest.Some? ==> [] + rest.value == rest.value && first + [] == first;
    if rest.None? then None else Some(first + rest.value)
  }

  lemma PutAgain<T>(seen: seq<T>, first: seq<T>, rest: Codec.Option<seq<T>>)
    ensures Put(seen, Put(first, rest)) == Put(seen + first, rest)
  {
    if rest.Some? {
      assert seen + (first + rest.value) == seen + first + rest.value;
    }
  }

  /** The indices, from `at` on, of the tokens whose role is positional. */
  function Indices(roles: seq<Role>, at: nat): seq<nat> {
    if roles == [] then []
    else (if roles[0].Positional? then [at] else []) + Indices(roles[1..], at + 1)
  }

  /** The indices are increasing, and indices of tokens. */
  lemma {:induction false} IndicesIncreasing(roles: seq<Role>, at: nat)
    ensures var inds := Indices(roles, at);
            && |inds| <= |roles|
            && (forall i :: 0 <= i < |inds| ==> at + i <= inds[i] < at + |roles|)
            && (forall i, j :: 0 <= i < j < |inds| ==> inds[i] < inds[j])
  {
    if roles != [] {
      IndicesIncreasing(roles[1..], at + 1);
    }
  }

  lemma {:induction false} IndicesAppend(a: seq<Role>, b: seq<Role>, at: nat)
    ensures Indices(a + b, at) == Indices(a, at) + Indices(b, at + |a|)
  {
    if a == [] {
      assert a + b == b;
    } else {
      assert (a + b)[1..] == a[1..] + b;
      IndicesAppend(a[1..], b, at + 1);
    }
  }

  lemma {:induction false} NoIndices(role: Role, n: nat, at: nat)
    requires !role.Positional?
    ensures Indices(Repeat(role, n), at) == []
  {
    if n > 0 {
      assert Repeat(role, n)[1..] == Repeat(role, n - 1);
      NoIndices(role, n - 1, at + 1);
    }
  }

  /** What the scan finds from `from` on. */
  function Found(take: Taker, argv: seq<string>, from: nat, flags: bool): Codec.Option<seq<nat>>
    requires from <= |argv| && Modest(take, argv)
    decreases |argv| - from
  {
    if from == |argv| then Some([])
    else
      var turn := TurnAt(take, argv, from, flags);
      if turn.None? then None
      else Put(FoundAt(turn.value, from), Found(take, argv, from + 1 + turn.value.values, turn.value.flags))
  }

  function FoundAt(turn: Turn, from: nat): seq<nat> {
    if turn.role.Positional? then [from] else []
  }

  lemma TurnIndices(turn: Turn, rest: seq<Role>, at: nat)
    requires turn.role.Positional? ==> turn.values == 0
    ensures Indices(TurnRoles(turn) + rest, at) == FoundAt(turn, at) + Indices(rest, at + 1 + turn.values)
  {
    var values := Repeat(Value, turn.values);
    assert (TurnRoles(turn) + rest)[1..] == values + rest;
    IndicesAppend(values, rest, at + 1);
    NoIndices(Value, turn.values, at + 1);
  }

  ghost predicate AreIndices(found: Codec.Option<seq<nat>>, roles: Codec.Option<seq<Role>>, at: nat) {
    if roles.None? then found.None? else found == Some(Indices(roles.value, at))
  }

  lemma TurnAreIndices(turn: Turn, found: Codec.Option<seq<nat>>, rest: Codec.Option<seq<Role>>, at: nat)
    requires turn.role.Positional? ==> turn.values == 0
    requires AreIndices(found, rest, at + 1 + turn.values)
    ensures AreIndices(Put(FoundAt(turn, at), found), Put(TurnRoles(turn), rest), at)
  {
    if rest.Some? {
      TurnIndices(turn, rest.value, at);
    }
  }

  lemma NoValuesBehind(take: Taker, argv: seq<string>, from: nat, flags: bool)
    requires from < |argv| && Modest(take, argv)
    ensures var turn := TurnAt(take, argv, from, flags);
            turn.Some? && turn.value.role.Positional? ==> turn.value.values == 0
  {
  }

  /** The scan finds the tokens that are positional, if every option is accepted. */
  lemma {:induction false} FoundIsIndices(take: Taker, argv: seq<string>, from: nat, flags: bool)
    requires from <= |argv| && Modest(take, argv)
    ensures AreIndices(Found(take, argv, from, flags), Roles(take, argv, from, flags), from)
    decreases |argv| - from
  {
    hide TurnAt, TurnRoles, FoundAt;
    if from < |argv| {
      var turn := TurnAt(take, argv, from, flags);
      if turn.Some? {
        NoValuesBehind(take, argv, from, flags);
        var next, more := from + 1 + turn.value.values, turn.value.flags;
        FoundIsIndices(take, argv, next, more);
        TurnAreIndices(turn.value, Found(take, argv, next, more), Roles(take, argv, next, more), from);
      }
    }
  }

  // ----- the roles, told from the tokens alone -----

  /** Just `count` tokens from `at` on do not begin with a dash before one that does, or before the end. */
  ghost predicate Dashless(argv: seq<string>, at: nat, count: nat) {
    && at + count <= |argv| && (forall i :: at <= i < at + count ==> !("-" <= argv[i]))
    && (at + count < |argv| ==> "-" <= argv[at + count])
  }

  /** The option is offered all tokens up to the next one that begins with a dash, and takes so many. */
  ghost predicate Takes(take: Taker, argv: seq<string>, at: nat, values: nat) {
    exists count: nat :: Dashless(argv, at, count) && at + count <= |argv| && take(argv, at, count) == Some(values)
  }

  /** No options are looked for any more behind a token "--". */
  ghost predicate Over(argv: seq<string>, from: nat, at: nat, flags: bool)
    requires from <= at <= |argv|
  {
    !flags || "--" in argv[from..at]
  }

  /** The tokens that the option takes are values, and the next one is not. */
  ghost predicate TakesBehind(take: Taker, argv: seq<string>, from: nat, roles: seq<Role>, k: nat, values: nat) {
    && Takes(take, argv, from + k + 1, values) && k + values < |roles|
    && (forall i :: k < i <= k + values ==> roles[i].Value?)
    && (k + values + 1 < |roles| ==> !roles[k + values + 1].Value?)
  }

  ghost predicate IsAccepted(take: Taker, argv: seq<string>, from: nat, roles: seq<Role>, k: nat) {
    exists values: nat :: TakesBehind(take, argv, from, roles, k, values)
  }

  /** The `k`th of these roles is the right one for its token. */
  ghost predicate RoleFits(take: Taker, argv: seq<string>, from: nat, flags: bool, roles: seq<Role>, k: nat)
    requires from + |roles| == |argv| && k < |roles|
  {
    var token, over := argv[from + k], Over(argv, from, from + k, flags);
    match roles[k]
    case Positional => over || !("-" <= token)
    case EndOfOptions => !over && token == "--"
    case Value => !over && !("-" <= token) && k > 0 && (roles[k - 1].Option? || roles[k - 1].Value?)
    case Option =>
      !over && "-" <= token && token != "--" && IsAccepted(take, argv, from, roles, k)
  }

  /** The roles of the tokens from `from` on. */
  ghost predicate AreRoles(take: Taker, argv: seq<string>, from: nat, flags: bool, roles: seq<Role>) {
    from + |roles| == |argv| && forall k: nat :: k < |roles| ==> RoleFits(take, argv, from, flags, roles, k)
  }

  lemma {:induction false} RunIsDashless(argv: seq<string>, at: nat)
    requires at <= |argv|
    ensures Dashless(argv, at, ValuesEnd(argv, at) - at)
    decreases |argv| - at
  {
    if at < |argv| && !IsFlag(argv[at]) {
      RunIsDashless(argv, at + 1);
    }
  }

  lemma {:induction false} DashlessIsRun(argv: seq<string>, at: nat, count: nat)
    requires Dashless(argv, at, count)
    ensures count == ValuesEnd(argv, at) - at
    decreases count
  {
    if count > 0 {
      DashlessIsRun(argv, at + 1, count - 1);
    }
  }

  lemma TakesExactly(take: Taker, argv: seq<string>, at: nat, values: nat)
    requires at <= |argv| && Modest(take, argv)
    ensures Takes(take, argv, at, values) <==> take(argv, at, ValuesEnd(argv, at) - at) == Some(values)
    ensures Takes(take, argv, at, values) ==> Dashless(argv, at, ValuesEnd(argv, at) - at)
    ensures Takes(take, argv, at, values) ==> at + values <= ValuesEnd(argv, at)
  {
    RunIsDashless(argv, at);
    if Takes(take, argv, at, values) {
      var count: nat :| Dashless(argv, at, count) && at + count <= |argv| && take(argv, at, count) == Some(values);
      DashlessIsRun(argv, at, count);
    }
  }

  /** A turn, told from the tokens alone. */
  ghost predicate TurnFits(take: Taker, argv: seq<string>, from: nat, flags: bool, turn: Turn)
    requires from < |argv|
  {
    && from + 1 + turn.values <= |argv| && turn.flags == (flags && !turn.role.EndOfOptions?)
    && match turn.role
       case Positional => turn.values == 0 && (!flags || !("-" <= argv[from]))
       case EndOfOptions => turn.values == 0 && flags && argv[from] == "--"
       case Option =>
         && flags && "-" <= argv[from] && argv[from] != "--" && Takes(take, argv, from + 1, turn.values)
         && forall i :: from < i <= from + turn.values ==> !("-" <= argv[i])
       case Value => false
  }

  lemma TurnExactly(take: Taker, argv: seq<string>, from: nat, flags: bool, turn: Turn)
    requires from < |argv| && Modest(take, argv)
    ensures TurnAt(take, argv, from, flags) == Some(turn) <==> TurnFits(take, argv, from, flags, turn)
  {
    hide Takes, ValuesEnd;
    TakesExactly(take, argv, from + 1, turn.values);
    assert IsFlag(argv[from]) <==> "-" <= argv[from];
  }

  lemma OverBehind(take: Taker, argv: seq<string>, from: nat, flags: bool, turn: Turn, at: nat)
    requires from < |argv| && TurnFits(take, argv, from, flags, turn) && from + 1 + turn.values <= at <= |argv|
    ensures Over(argv, from, at, flags) <==> Over(argv, from + 1 + turn.values, at, turn.flags)
  {
    hide Takes;
    var next := from + 1 + turn.values;
    assert argv[from..at] == [argv[from]] + argv[from + 1..next] + argv[next..at];
    assert "--" !in argv[from + 1..next];
  }

  /** What fits behind a turn fits without it. */
  lemma FitsBehind(take: Taker, argv: seq<string>, from: nat, flags: bool, turn: Turn, rest: seq<Role>, k: nat)
    requires from < |argv| && TurnFits(take, argv, from, flags, turn) && from + 1 + turn.values + |rest| == |argv|
    requires k < |rest| && (k == 0 ==> !rest[0].Value?)
    ensures RoleFits(take, argv, from, flags, TurnRoles(turn) + rest, 1 + turn.values + k)
       <==> RoleFits(take, argv, from + 1 + turn.values, turn.flags, rest, k)
  {
    var next, n := from + 1 + turn.values, 1 + turn.values;
    var all := TurnRoles(turn) + rest;
    OverBehind(take, argv, from, flags, turn, next + k);
    hide Takes, Over, TurnFits, TurnRoles;
    assert all[n + k] == rest[k] && (k > 0 ==> all[n + k - 1] == rest[k - 1]) && from + n + k == next + k;
    hide IsAccepted;
    AcceptedShift(take, argv, from, TurnRoles(turn), rest, k);
  }

  lemma AcceptedShift(take: Taker, argv: seq<string>, from: nat, first: seq<Role>, rest: seq<Role>, k: nat)
    ensures IsAccepted(take, argv, from, first + rest, |first| + k)
       <==> IsAccepted(take, argv, from + |first|, rest, k)
  {
    hide TakesBehind;
    if IsAccepted(take, argv, from, first + rest, |first| + k) {
      var values: nat :| TakesBehind(take, argv, from, first + rest, |first| + k, values);
      TakesShift(take, argv, from, first, rest, k, values);
    }
    if IsAccepted(take, argv, from + |first|, rest, k) {
      var values: nat :| TakesBehind(take, argv, from + |first|, rest, k, values);
      TakesShift(take, argv, from, first, rest, k, values);
    }
  }

  lemma TakesShift(take: Taker, argv: seq<string>, from: nat, first: seq<Role>, rest: seq<Role>, k: nat, values: nat)
    ensures TakesBehind(take, argv, from, first + rest, |first| + k, values)
       <==> TakesBehind(take, argv, from + |first|, rest, k, values)
  {
    hide Takes;
    var all, n := first + rest, |first|;
    assert forall i :: k < i < |rest| ==> rest[i] == all[n + i];
    if TakesBehind(take, argv, from, all, n + k, values) {
      forall i | k < i <= k + values
        ensures rest[i].Value?
      {
        assert all[n + i].Value?;
      }
    }
  }

  /** The roles within a turn fit. */
  lemma FitsWithin(take: Taker, argv: seq<string>, from: nat, flags: bool, turn: Turn, rest: seq<Role>, k: nat)
    requires from < |argv| && TurnFits(take, argv, from, flags, turn) && from + 1 + turn.values + |rest| == |argv|
    requires k <= turn.values && (rest != [] ==> !rest[0].Value?)
    ensures RoleFits(take, argv, from, flags, TurnRoles(turn) + rest, k)
  {
    hide Takes;
    var all := TurnRoles(turn) + rest;
    assert forall i :: 1 <= i <= turn.values ==> all[i].Value?;
    if k == 0 {
      assert argv[from..from] == [];
      if turn.role.Option? {
        assert TakesBehind(take, argv, from, all, 0, turn.values);
      }
    } else {
      assert argv[from..from + k] == [argv[from]] + argv[from + 1..from + k];
      assert "--" !in argv[from + 1..from + k];
    }
  }

  lemma {:induction false} RolesFit(take: Taker, argv: seq<string>, from: nat, flags: bool)
    requires from <= |argv| && Modest(take, argv) && Roles(take, argv, from, flags).Some?
    ensures AreRoles(take, argv, from, flags, Roles(take, argv, from, flags).value)
    decreases |argv| - from
  {
    if from < |argv| {
      hide RoleFits, TurnFits, TurnRoles, TurnAt;
      var turn := TurnAt(take, argv, from, flags).value;
      var next := from + 1 + turn.values;
      TurnExactly(take, argv, from, flags, turn);
      RolesFit(take, argv, next, turn.flags);
      var rest := Roles(take, argv, next, turn.flags).value;
      FirstNoValue(take, argv, next, turn.flags, rest);
      forall k: nat | k < 1 + turn.values + |rest|
        ensures RoleFits(take, argv, from, flags, TurnRoles(turn) + rest, k)
      {
        if k <= turn.values {
          FitsWithin(take, argv, from, flags, turn, rest, k);
        } else {
          FitsBehind(take, argv, from, flags, turn, rest, k - 1 - turn.values);
        }
      }
    }
  }

  lemma FirstNoValue(take: Taker, argv: seq<string>, from: nat, flags: bool, roles: seq<Role>)
    requires AreRoles(take, argv, from, flags, roles)
    ensures roles != [] ==> !roles[0].Value?
  {
    assert roles != [] ==> RoleFits(take, argv, from, flags, roles, 0);
  }

  /** The turn that the first of the roles belongs to. */
  lemma FirstTurn(take: Taker, argv: seq<string>, from: nat, flags: bool, roles: seq<Role>) returns (turn: Turn)
    requires from < |argv| && Modest(take, argv) && AreRoles(take, argv, from, flags, roles)
    ensures TurnFits(take, argv, from, flags, turn) && 1 + turn.values <= |roles|
    ensures roles == TurnRoles(turn) + roles[1 + turn.values..]
    ensures 1 + turn.values < |roles| ==> !roles[1 + turn.values].Value?
  {
    hide Takes;
    assert RoleFits(take, argv, from, flags, roles, 0) && argv[from..from] == [];
    var values: nat := 0;
    if roles[0].Option? {
      values :| TakesBehind(take, argv, from, roles, 0, values);
      TakesExactly(take, argv, from + 1, values);
    } else if |roles| > 1 {
      assert RoleFits(take, argv, from, flags, roles, 1);
    }
    turn := Turn(roles[0], values, flags && !roles[0].EndOfOptions?);
  }

  lemma {:induction false} RolesUnique(take: Taker, argv: seq<string>, from: nat, flags: bool, roles: seq<Role>)
    requires from <= |argv| && Modest(take, argv) && AreRoles(take, argv, from, flags, roles)
    ensures Roles(take, argv, from, flags) == Some(roles)
    decreases |argv| - from
  {
    if from < |argv| {
      hide RoleFits, TurnFits, TurnRoles, TurnAt;
      var turn := FirstTurn(take, argv, from, flags, roles);
      var next, rest := from + 1 + turn.values, roles[1 + turn.values..];
      TurnExactly(take, argv, from, flags, turn);
      forall k: nat | k < |rest|
        ensures RoleFits(take, argv, next, turn.flags, rest, k)
      {
        FitsBehind(take, argv, from, flags, turn, rest, k);
      }
      RolesUnique(take, argv, next, turn.flags, rest);
    }
  }

  /** The roles that the turns give are those that the tokens have, and there are none if and only if some option
      is not accepted. */
  lemma RolesExactly(take: Taker, argv: seq<string>, from: nat, flags: bool, roles: seq<Role>)
    requires from <= |argv| && Modest(take, argv)
    ensures Roles(take, argv, from, flags) == Some(roles) <==> AreRoles(take, argv, from, flags, roles)
  {
    hide AreRoles;
    if Roles(take, argv, from, flags) == Some(roles) {
      RolesFit(take, argv, from, flags);
    }
    if AreRoles(take, argv, from, flags, roles) {
      RolesUnique(take, argv, from, flags, roles);
    }
  }

  lemma FoundEnd(take: Taker, argv: seq<string>, flags: bool)
    requires Modest(take, argv)
    ensures Found(take, argv, |argv|, flags) == Some([])
  {
  }

  /** Before a turn, all that is found is what was seen and what is found from there on; and so it is after. */
  lemma FoundTurn(take: Taker, argv: seq<string>, from: nat, flags: bool, seen: seq<nat>)
    requires from < |argv| && Modest(take, argv)
    ensures var turn, all := TurnAt(take, argv, from, flags), Put(seen, Found(take, argv, from, flags));
            if turn.None? then all.None?
            else all == Put(seen + FoundAt(turn.value, from),
                            Found(take, argv, from + 1 + turn.value.values, turn.value.flags))
  {
    var turn := TurnAt(take, argv, from, flags);
    if turn.Some? {
      PutAgain(seen, FoundAt(turn.value, from), Found(take, argv, from + 1 + turn.value.values, turn.value.flags));
    }
  }

  function Pick(argv: seq<string>, inds: seq<nat>): (args: seq<string>)
    requires forall i :: 0 <= i < |inds| ==> inds[i] < |argv|
    ensures |args| == |inds|
  {
    seq(|inds|, i requires 0 <= i < |inds| => argv[inds[i]])
  }

  /** The tokens whose role is positional, in their order. */
  function Positionals(tokens: seq<string>, roles: seq<Role>): (args: seq<string>)
    requires |tokens| == |roles|
    ensures |args| <= |tokens|
  {
    if roles == [] then []
    else (if roles[0].Positional? then [tokens[0]] else []) + Positionals(tokens[1..], roles[1..])
  }

  lemma {:induction false} PickPositionals(argv: seq<string>, roles: seq<Role>, at: nat)
    requires at + |roles| == |argv|
    ensures forall i :: 0 <= i < |Indices(roles, at)| ==> Indices(roles, at)[i] < |argv|
    ensures Pick(argv, Indices(roles, at)) == Positionals(argv[at..], roles)
  {
    if roles != [] {
      IndicesIncreasing(roles, at);
      PickPositionals(argv, roles[1..], at + 1);
      assert argv[at..][1..] == argv[at + 1..];
      var first := if roles[0].Positional? then [at] else [];
      var rest := Indices(roles[1..], at + 1);
      assert Pick(argv, first + rest) == Pick(argv, first) + Pick(argv, rest);
    }
  }

  /** The scan: which tokens are positional. */
  method Scan(take: Taker, argv: array<string>) returns (inds: Codec.Option<seq<nat>>)
    requires argv.Length >= 1 && Modest(take, argv[..])
    ensures inds == Found(take, argv[..], 1, true)
  {
    hide Found, Put;
    ghost var tokens := argv[..];
    ghost var all := Found(take, tokens, 1, true);
    var argInds: seq<nat>, flags, from := [], true, 1;
    while from < argv.Length
      invariant 1 <= from <= argv.Length && argv[..] == tokens
      invariant all == Put(argInds, Found(take, tokens, from, flags))
      decreases argv.Length - from
    {
      FoundTurn(take, tokens, from, flags, argInds);
      assert argInds + [] == argInds;
      var flag := argv[from];
      from := from + 1;
      if !flags || !IsFlag(flag) {
        argInds := argInds + [from - 1];
      } else if flag == "--" {
        flags := false;
      } else {
        var to := FindValuesEnd(argv, from);
        var taken := take(argv[..], from, to - from);
        if taken.None? {
          return None;
        }
        from := from + taken.value;
      }
    }
    FoundEnd(take, tokens, flags);
    inds := Some(argInds);
  }

  method FindValuesEnd(argv: array<string>, from: nat) returns (to: nat)
    requires from <= argv.Length
    ensures to == ValuesEnd(argv[..], from)
  {
    to := from;
    while to < argv.Length && !IsFlag(argv[to])
      invariant from <= to <= argv.Length && ValuesEnd(argv[..], to) == ValuesEnd(argv[..], from)
    {
      to := to + 1;
    }
  }

  method Exchange(argv: array<string>, i: nat, j: nat)
    requires i < argv.Length && j < argv.Length
    modifies argv
    ensures argv[i] == old(argv[j]) && argv[j] == old(argv[i])
    ensures forall k :: 0 <= k < argv.Length && k != i && k != j ==> argv[k] == old(argv[k])
    ensures multiset(argv[..]) == multiset(old(argv[..]))
  {
    argv[i], argv[j] := argv[j], argv[i];
  }

  ghost predicate Increasing(inds: seq<nat>, n: nat) {
    && |inds| < n
    && (forall i :: 0 <= i < |inds| ==> 1 + i <= inds[i] < n)
    && (forall i, j :: 0 <= i < j < |inds| ==> inds[i] < inds[j])
  }

  /** Moves the tokens at the given indices to the front, behind the program's name, by exchanging tokens. */
  method Compact(argv: array<string>, inds: seq<nat>)
    requires Increasing(inds, argv.Length)
    modifies argv
    ensures argv[0] == old(argv[0])
    ensures argv[1..1 + |inds|] == old(Pick(argv[..], inds))
    ensures multiset(argv[..]) == multiset(old(argv[..]))
  {
    ghost var tokens := argv[..];
    for k := 0 to |inds|
      invariant argv[0] == tokens[0]
      invariant forall i :: 0 <= i < k ==> argv[1 + i] == tokens[inds[i]]
      invariant forall i :: k <= i < |inds| ==> argv[inds[i]] == tokens[inds[i]]
      invariant multiset(argv[..]) == multiset(tokens)
    {
      Exchange(argv, k + 1, inds[k]);
    }
  }

  /** Parsing succeeds exactly if the tokens have roles, that is, if every option is accepted. Then the arguments that
      are neither options nor values are at the front in their order, and no token is lost. */
  method Parse(take: Taker, argv: array<string>) returns (argc: Codec.Option<nat>)
    requires argv.Length >= 1 && Modest(take, argv[..])
    modifies argv
    ensures argc.Some? <==> exists roles :: AreRoles(take, old(argv[..]), 1, true, roles)
    ensures forall roles :: AreRoles(take, old(argv[..]), 1, true, roles) ==>
              && argc.Some? && 1 <= argc.value <= argv.Length && argv[0] == old(argv[0])
              && argv[1..argc.value] == Positionals(old(argv[1..]), roles)
    ensures argc.None? ==> argv[..] == old(argv[..])
    ensures multiset(argv[..]) == multiset(old(argv[..]))
  {
    hide AreRoles;
    var inds := Scan(take, argv);
    ghost var tokens := argv[..];
    FoundIsIndices(take, tokens, 1, true);
    forall roles
      ensures AreRoles(take, tokens, 1, true, roles) <==> Roles(take, tokens, 1, true) == Some(roles)
    {
      RolesExactly(take, tokens, 1, true, roles);
    }
    if inds.None? {
      return None;
    }
    ghost var roles := Roles(take, tokens, 1, true).value;
    assert AreRoles(take, tokens, 1, true, roles);
    IndicesIncreasing(roles, 1);
    PickPositionals(tokens, roles, 1);
    assert tokens[1..] == argv[1..];
    Compact(argv, inds.value);
    argc := Some(|inds.value| + 1);
  }

  /** The positional tokens, and no others, are picked. */
  lemma {:induction false} IndicesExact(roles: seq<Role>, at: nat, k: nat)
    requires at <= k < at + |roles|
    ensures k in Indices(roles, at) <==> roles[k - at].Positional?
  {
    IndicesIncreasing(roles[1..], at + 1);
    if k > at {
      IndicesExact(roles[1..], at + 1, k);
    }
  }
}
