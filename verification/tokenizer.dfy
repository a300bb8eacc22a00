/** `Parser`: the cursor loop that turns the token array into switch groups
    (raw key to value list) and positional tokens. One loop iteration,
    including the `catch` that records an exception and carries on, is
    `Step`; `Tokenize` repeats it until the cursor passes the end. An
    iteration that throws before the cursor moves is retried forever by the
    source; `Tokenize` reports such an input as `Diverges`. */
module Tokenizer {
  import opened Base
  import opened Text
  import opened Settings
  import opened Types
  import opened Errors
  import opened Descriptors

  /** `CommandLineArgumentType`, together with the token as the
      classification leaves it: the prefix stripped from a switch, the
      trimmed text of a value. */
  datatype Kind = SwitchArg(name: string) | EndSwitchMarker | ValueArg(text: string)

  /** Index of the first prefix, in configured order, that `t` starts
      with. */
  function FirstPrefix(prefixes: seq<string>, t: string, k: nat): (r: Option<nat>)
    requires k <= |prefixes|
    ensures r.Some? ==> k <= r.value < |prefixes| && StartsWith(t, prefixes[r.value])
    ensures r.Some? ==> forall j :: k <= j < r.value ==> !StartsWith(t, prefixes[j])
    ensures r.None? <==> forall j :: k <= j < |prefixes| ==> !StartsWith(t, prefixes[j])
    decreases |prefixes| - k
  {
    if k == |prefixes| then None
    else if StartsWith(t, prefixes[k]) then Some(k)
    else FirstPrefix(prefixes, t, k + 1)
  }

  /** `prefixes[k]` is the first prefix `t` starts with, and `r` is what
      remains of `t` without it. */
  predicate StrippedBy(prefixes: seq<string>, t: string, k: int, r: Kind) {
    && 0 <= k < |prefixes| && StartsWith(t, prefixes[k])
    && (forall j :: 0 <= j < k ==> !StartsWith(t, prefixes[j]))
    && (r.EndSwitchMarker? <==> |t| == |prefixes[k]|)
    && (r.SwitchArg? ==> r.name == t[|prefixes[k]|..])
  }

  /** `GetCommandLineArgumentType` on an already trimmed token: the first
      matching prefix is stripped; nothing left means an end-of-switches
      marker, something left a switch; no prefix means a value. */
  function Classify(prefixes: seq<string>, t: string): (r: Kind)
    ensures r.ValueArg? <==> forall k :: 0 <= k < |prefixes| ==> !StartsWith(t, prefixes[k])
    ensures r.ValueArg? ==> r.text == t
    ensures !r.ValueArg? ==> exists k :: StrippedBy(prefixes, t, k, r)
  {
    match FirstPrefix(prefixes, t, 0)
    case None => ValueArg(t)
    case Some(k) =>
      var rest := t[|prefixes[k]|..];
      var r := if rest == "" then EndSwitchMarker else SwitchArg(rest);
      assert StrippedBy(prefixes, t, k, r);
      r
  }

  /** `LooksLikeASwitch`: the untrimmed token starts with some prefix. */
  predicate LooksLikeSwitch(prefixes: seq<string>, s: string) {
    exists k :: 0 <= k < |prefixes| && StartsWith(s, prefixes[k])
  }

  /** Under the default prefixes "--" is an end-of-switches marker, not a
      switch named "-", and "-x" is the switch "x". */
  lemma DefaultPrefixOrder()
    ensures Classify(Defaults.switchPrefixes, "--") == EndSwitchMarker
    ensures Classify(Defaults.switchPrefixes, "-x") == SwitchArg("x")
    ensures Classify(Defaults.switchPrefixes, "/x") == SwitchArg("x")
  {
    assert StartsWith("--", "--");
    assert StartsWith("-x", "-") && "-x"[1] != "--"[1];
    assert StartsWith("/x", "/") && "/x"[0] != "--"[0] && "/x"[0] != "-"[0];
  }

  /** A switch split into its key and, when a separator occurs, the value
      after it. */
  datatype KeyValue = KeyValue(key: string, value: Option<string>)

  /** The separator loop of `SplitIntoKeyAndValue`: `posn` is the earliest
      position found so far, `best` the length of the separator found
      there; only a strictly earlier position replaces it. */
  function Scan(arg: string, seps: seq<string>, fold: bool, k: nat, posn: nat, best: nat): (r: (nat, nat))
    requires k <= |seps| && posn + best <= |arg|
    ensures r.0 + r.1 <= |arg|
    decreases |seps| - k
  {
    if k == |seps| then (posn, best)
    else
      var p := IndexOf(arg, seps[k], fold);
      if p != -1 && p < posn then Scan(arg, seps, fold, k + 1, p, |seps[k]|)
      else Scan(arg, seps, fold, k + 1, posn, best)
  }

  /** `SplitIntoKeyAndValue`: separators are searched under the configured
      comparison; the key is what precedes the chosen one and the value
      everything after it. */
  function Split(arg: string, seps: seq<string>, fold: bool): KeyValue {
    var (posn, best) := Scan(arg, seps, fold, 0, |arg|, 0);
    if best > 0 then KeyValue(arg[..posn], Some(arg[posn + best..])) else KeyValue(arg, None)
  }

  predicate NonEmptySeparators(seps: seq<string>) {
    forall k :: 0 <= k < |seps| ==> |seps[k]| > 0
  }

  /** Among the first `k` separators, `seps[j]` is the one a split at
      `posn` uses: it occurs at `posn`, no earlier-declared separator occurs
      at or before `posn`, and no later one occurs before it. */
  predicate Chosen(arg: string, seps: seq<string>, fold: bool, k: nat, j: int, posn: int)
    requires k <= |seps|
  {
    && 0 <= j < k && IndexOf(arg, seps[j], fold) == posn
    && (forall i :: 0 <= i < j ==> IndexOf(arg, seps[i], fold) == -1 || IndexOf(arg, seps[i], fold) > posn)
    && (forall i :: j < i < k ==> IndexOf(arg, seps[i], fold) == -1 || IndexOf(arg, seps[i], fold) >= posn)
  }

  /** What `Scan` knows after looking at the first `k` separators, with
      `j` the separator chosen so far when there is one. */
  predicate ScanState(arg: string, seps: seq<string>, fold: bool, k: nat, posn: nat, best: nat, j: int)
    requires k <= |seps|
  {
    && (best == 0 ==> posn == |arg| && forall i :: 0 <= i < k ==> IndexOf(arg, seps[i], fold) == -1)
    && (best > 0 ==> Chosen(arg, seps, fold, k, j, posn) && |seps[j]| == best)
  }

  /** A separator found strictly before the best position so far becomes
      the chosen one. */
  lemma ScanStepFound(arg: string, seps: seq<string>, fold: bool, k: nat, posn: nat, best: nat, j: int)
    requires k < |seps| && ScanState(arg, seps, fold, k, posn, best, j)
    requires IndexOf(arg, seps[k], fold) != -1 && IndexOf(arg, seps[k], fold) < posn
    ensures Chosen(arg, seps, fold, k + 1, k, IndexOf(arg, seps[k], fold))
  {
    var p := IndexOf(arg, seps[k], fold);
    if best > 0 {
      assert forall i :: 0 <= i < k ==> IndexOf(arg, seps[i], fold) == -1 || IndexOf(arg, seps[i], fold) > p;
    }
  }

  /** A separator that is absent, or found no earlier than the best
      position so far, changes nothing. */
  lemma ScanStepKept(arg: string, seps: seq<string>, fold: bool, k: nat, posn: nat, best: nat, j: int)
    requires NonEmptySeparators(seps)
    requires k < |seps| && ScanState(arg, seps, fold, k, posn, best, j)
    requires !(IndexOf(arg, seps[k], fold) != -1 && IndexOf(arg, seps[k], fold) < posn)
    ensures ScanState(arg, seps, fold, k + 1, posn, best, j)
  {
    if best > 0 {
      assert Chosen(arg, seps, fold, k + 1, j, posn);
    }
  }

  lemma {:induction false} ScanFindsLeftmost(arg: string, seps: seq<string>, fold: bool, k: nat, posn: nat, best: nat, j: int)
    returns (chosen: int)
    requires NonEmptySeparators(seps)
    requires k <= |seps| && posn + best <= |arg|
    requires ScanState(arg, seps, fold, k, posn, best, j)
    ensures var r := Scan(arg, seps, fold, k, posn, best);
      ScanState(arg, seps, fold, |seps|, r.0, r.1, chosen)
    decreases |seps| - k
  {
    if k < |seps| {
      var p := IndexOf(arg, seps[k], fold);
      if p != -1 && p < posn {
        ScanStepFound(arg, seps, fold, k, posn, best, j);
        chosen := ScanFindsLeftmost(arg, seps, fold, k + 1, p, |seps[k]|, k);
      } else {
        ScanStepKept(arg, seps, fold, k, posn, best, j);
        chosen := ScanFindsLeftmost(arg, seps, fold, k + 1, posn, best, j);
      }
    } else {
      chosen := j;
    }
  }

  /** With non-empty separators the split is at the leftmost occurrence of
      any separator, an earlier-declared separator winning a tie; the value
      is the whole rest of the switch, so later separators stay in it. With
      no occurrence the whole switch is the key. */
  lemma SplitLeftmost(arg: string, seps: seq<string>, fold: bool)
    requires NonEmptySeparators(seps)
    ensures var kv := Split(arg, seps, fold);
      kv.value.None? <==> forall j :: 0 <= j < |seps| ==> IndexOf(arg, seps[j], fold) == -1
    ensures var kv := Split(arg, seps, fold);
      kv.value.None? ==> kv.key == arg
    ensures var kv := Split(arg, seps, fold);
      kv.value.Some? ==> kv.key == arg[..|kv.key|] && exists j ::
        Chosen(arg, seps, fold, |seps|, j, |kv.key|) && kv.value.value == arg[|kv.key| + |seps[j]|..]
  {
    var j := ScanFindsLeftmost(arg, seps, fold, 0, |arg|, 0, -1);
    var r := Scan(arg, seps, fold, 0, |arg|, 0);
    if r.1 > 0 {
      assert Chosen(arg, seps, fold, |seps|, j, r.0);
    }
  }

  /** One switch occurrence: the key as typed and its values. */
  datatype Group = Group(key: string, values: seq<string>)

  function Keys(groups: seq<Group>): (ks: seq<string>)
    ensures |ks| == |groups| && forall i :: 0 <= i < |groups| ==> ks[i] == groups[i].key
  {
    if groups == [] then [] else [groups[0].key] + Keys(groups[1..])
  }

  predicate DistinctKeys(groups: seq<Group>) {
    forall i, j :: 0 <= i < j < |groups| ==> groups[i].key != groups[j].key
  }

  /** Every group with key `key` given the list `values`. */
  function Overwrite(groups: seq<Group>, key: string, values: seq<string>): (r: seq<Group>)
    ensures |r| == |groups|
    ensures forall i :: 0 <= i < |groups| ==> r[i] == (if groups[i].key == key then Group(key, values) else groups[i])
  {
    if groups == [] then [] else
    [if groups[0].key == key then Group(key, values) else groups[0]] + Overwrite(groups[1..], key, values)
  }

  /** `dictionary[key] = values`: an existing key keeps its place and gets
      the new list, a new key is added at the end. */
  function Put(groups: seq<Group>, key: string, values: seq<string>): (r: seq<Group>)
    ensures key in Keys(groups) ==> |r| == |groups|
    ensures key !in Keys(groups) ==> r == groups + [Group(key, values)]
    ensures forall i :: 0 <= i < |groups| ==> r[i] == (if groups[i].key == key then Group(key, values) else groups[i])
    ensures DistinctKeys(groups) ==> DistinctKeys(r)
  {
    if key in Keys(groups) then Overwrite(groups, key, values) else groups + [Group(key, values)]
  }

  /** The last token index a switch at `j` consumes: for a list-shaped
      descriptor, following tokens up to the next switch-looking one or the
      end of input. */
  function TakeList(prefixes: seq<string>, args: seq<string>, j: nat, isList: bool): (e: nat)
    requires j < |args|
    ensures j <= e < |args|
    ensures !isList ==> e == j
    ensures forall i :: j < i <= e ==> !LooksLikeSwitch(prefixes, args[i])
    ensures isList ==> e + 1 == |args| || LooksLikeSwitch(prefixes, args[e + 1])
    decreases |args| - j
  {
    if !isList || j + 1 >= |args| || LooksLikeSwitch(prefixes, args[j + 1]) then j
    else TakeList(prefixes, args, j + 1, isList)
  }

  /** What one iteration does to the loop state, the errors it records
      kept apart. */
  datatype Effect = Effect(index: int, parsing: bool, groups: seq<Group>, positional: seq<string>, newErrors: seq<Error>)

  const NegatedWithValue := "Value not allowed on a 'no-...' bool switch"

  function UnknownSwitch(key: string, value: Option<string>): Error {
    match value
    case Some(v) => ReasonError(Str(key), Str(v), "Unknow command line switch: " + key)
    // `keyValue[1]` on a key without a value indexes past the array
    case None => IndexOutOfRange
  }

  /** The first value of a switch and the index of the last token read for
      it. A boolean takes its inline value, else "True", or "False" when
      negated; another switch takes its inline value, else the next token
      unless that looks like a switch. */
  function FirstValue(s: Settings, d: Descriptor, negated: bool, inline: Option<string>, args: seq<string>, i: nat)
    : (r: (string, nat))
    requires i < |args|
    requires !(IsBool(d.memberType) && negated && inline.Some?)
    ensures r.1 < |args| && (r.1 == i || (r.1 == i + 1 && r.0 == args[i + 1]))
    ensures r.1 == i + 1 <==>
      !IsBool(d.memberType) && inline.None? && i + 1 < |args| && !LooksLikeSwitch(s.switchPrefixes, args[i + 1])
    ensures inline.Some? ==> r == (inline.value, i)
    ensures inline.None? && r.1 == i ==> r.0 == (if negated then "False" else if IsBool(d.memberType) then "True" else "")
  {
    if IsBool(d.memberType) then
      (if negated then "False" else inline.GetOr("True"), i)
    else if inline.Some? then (inline.value, i)
    else if i + 1 < |args| && !LooksLikeSwitch(s.switchPrefixes, args[i + 1]) then (args[i + 1], i + 1)
    else (if negated then "False" else "", i)
  }

  /** `after` is `before` with `values` stored under `key`: one value, or
      at least one for a list. */
  predicate StoredAs(after: seq<Group>, before: seq<Group>, key: string, values: seq<string>, isList: bool) {
    after == Put(before, key, values) && |values| > 0 && (!isList ==> |values| == 1)
  }

  /** A switch split at its separator, with the negation prefix removed
      from the key: `key.Replace(noPrefix, "")` deletes every occurrence,
      not only the leading one. */
  datatype SwitchParts = SwitchParts(key: string, negated: bool, inline: Option<string>)

  function PartsOf(s: Settings, t: string): SwitchParts
    requires s.noPrefix != ""
  {
    var kv := Split(t, s.switchSeparators, IgnoreCase(s.caseMatching));
    var negated := StartsWith(kv.key, s.noPrefix);
    SwitchParts(if negated then RemoveAll(kv.key, s.noPrefix) else kv.key, negated, kv.value)
  }

  /** The iteration for a switch token met while parsing. `raw` is the
      token as given, `t` the token trimmed with its prefix stripped. */
  function SwitchEffect(s: Settings, descs: seq<Descriptor>, args: seq<string>, i: nat,
                        groups: seq<Group>, positional: seq<string>, raw: string, t: string): (r: Effect)
    requires i < |args|
    ensures r.index == i || i < r.index <= |args|
    ensures r.index == i ==> r.parsing && r.groups == groups && |r.newErrors| == 1
    ensures r.parsing && r.positional == positional
  {
    if s.noPrefix == "" then
      // every key starts with the empty prefix, and `Replace` with an
      // empty old value throws before the cursor moves
      Effect(i, true, groups, positional, [ArgumentError(Str(s.noPrefix))])
    else
      var p := PartsOf(s, t);
      match GetDescriptor(descs, p.key, s.caseMatching)
      case None =>
        Effect(i + 1, true, groups, positional, [UnknownSwitch(p.key, p.inline)])
      case Some(di) =>
        var d := descs[di];
        if IsBool(d.memberType) && p.negated && p.inline.Some? then
          // thrown before the cursor moves
          Effect(i, true, groups, positional, [ReasonError(Str(raw), Str(p.inline.value), NegatedWithValue)])
        else Store(s, d, p.negated, p.inline, args, i, groups, positional, p.key)
  }

  /** A known switch's values read and stored under `key`; the cursor
      moves past the last token read. */
  function Store(s: Settings, d: Descriptor, negated: bool, inline: Option<string>, args: seq<string>, i: nat,
                 groups: seq<Group>, positional: seq<string>, key: string): (r: Effect)
    requires i < |args|
    requires !(IsBool(d.memberType) && negated && inline.Some?)
    ensures i < r.index <= |args| && r.parsing && r.positional == positional && r.newErrors == []
    ensures StoredAs(r.groups, groups, key, StoreValues(s, d, negated, inline, args, i), d.isList)
  {
    Effect(StoreEnd(s, d, negated, inline, args, i) + 1, true,
           Put(groups, key, StoreValues(s, d, negated, inline, args, i)), positional, [])
  }

  /** The index of the last token a known switch reads. */
  function StoreEnd(s: Settings, d: Descriptor, negated: bool, inline: Option<string>, args: seq<string>, i: nat): (e: nat)
    requires i < |args|
    requires !(IsBool(d.memberType) && negated && inline.Some?)
    ensures i <= e < |args|
  {
    TakeList(s.switchPrefixes, args, FirstValue(s, d, negated, inline, args, i).1, d.isList)
  }

  /** The values a known switch stores: its first value, then the tokens a
      list goes on to take. */
  function StoreValues(s: Settings, d: Descriptor, negated: bool, inline: Option<string>, args: seq<string>, i: nat)
    : (values: seq<string>)
    requires i < |args|
    requires !(IsBool(d.memberType) && negated && inline.Some?)
    ensures |values| > 0 && (!d.isList ==> |values| == 1)
  {
    var first := FirstValue(s, d, negated, inline, args, i);
    [first.0] + args[first.1 + 1..StoreEnd(s, d, negated, inline, args, i) + 1]
  }

  /** One iteration of the loop in `Parser.Parse`, catch included. */
  function StepEffect(s: Settings, descs: seq<Descriptor>, args: seq<string>,
                      i: int, parsing: bool, groups: seq<Group>, positional: seq<string>): (r: Effect)
    requires i < |args|
    ensures r.index == i || i < r.index <= |args|
    ensures r.index == i ==>
      (r.parsing == parsing && r.groups == groups && r.positional == positional && |r.newErrors| == 1)
  {
    if i < 0 then
      // `args[currentIndex]` with a negative start
      Effect(i, parsing, groups, positional, [IndexOutOfRange])
    else
      var raw := args[i];
      match Classify(s.switchPrefixes, Trim(raw))
      case EndSwitchMarker => Effect(i + 1, false, groups, positional, [])
      case ValueArg(v) => Effect(i + 1, parsing, groups, positional + [v], [])
      case SwitchArg(t) =>
        if parsing then SwitchEffect(s, descs, args, i, groups, positional, raw, t)
        else Effect(i + 1, parsing, groups, positional + [t], [])
  }

  /** The loop state: cursor, mode, the two outputs and the shared error
      list. */
  datatype Cursor = Cursor(index: int, parsing: bool, groups: seq<Group>, positional: seq<string>, errors: seq<Error>)

  function Step(s: Settings, descs: seq<Descriptor>, args: seq<string>, c: Cursor): (c': Cursor)
    requires c.index < |args|
    ensures c'.index == c.index || c.index < c'.index <= |args|
    ensures c'.index == c.index ==> c' == c.(errors := c'.errors) && |c'.errors| == |c.errors| + 1
  {
    var e := StepEffect(s, descs, args, c.index, c.parsing, c.groups, c.positional);
    Cursor(e.index, e.parsing, e.groups, e.positional, c.errors + e.newErrors)
  }

  /** An iteration only ever appends to the positional and error lists. */
  lemma StepExtends(s: Settings, descs: seq<Descriptor>, args: seq<string>, c: Cursor)
    requires c.index < |args|
    ensures var c' := Step(s, descs, args, c);
      && |c.positional| <= |c'.positional| && c'.positional[..|c.positional|] == c.positional
      && |c.errors| <= |c'.errors| && c'.errors[..|c.errors|] == c.errors
  {
    var e := StepEffect(s, descs, args, c.index, c.parsing, c.groups, c.positional);
    assert (c.errors + e.newErrors)[..|c.errors|] == c.errors;
    if 0 <= c.index {
      match KindAt(s, args, c.index)
      case ValueArg(v) => assert (c.positional + [v])[..|c.positional|] == c.positional;
      case SwitchArg(t) => assert (c.positional + [t])[..|c.positional|] == c.positional;
      case EndSwitchMarker =>
    }
  }

  /** Outcome of the whole loop. */
  datatype Tokens = Tokens(groups: seq<Group>, positional: seq<string>, errors: seq<Error>) | Diverges

  /** `Parser.Parse(dict, list)` from cursor `c`. */
  function Tokenize(s: Settings, descs: seq<Descriptor>, args: seq<string>, c: Cursor): (r: Tokens)
    decreases |args| - c.index
  {
    if c.index >= |args| then Tokens(c.groups, c.positional, c.errors)
    else
      var c' := Step(s, descs, args, c);
      if c'.index == c.index then Diverges else Tokenize(s, descs, args, c')
  }

  /** The loop's recursion once one iteration has moved the cursor. */
  lemma TokenizeUnfold(s: Settings, descs: seq<Descriptor>, args: seq<string>, c: Cursor)
    requires c.index < |args| && Step(s, descs, args, c).index != c.index
    ensures Tokenize(s, descs, args, c) == Tokenize(s, descs, args, Step(s, descs, args, c))
  {
  }

  /** The loop only appends: tokens and errors already collected stay, in
      order, at the front of the outputs. */
  lemma {:induction false} TokenizeExtends(s: Settings, descs: seq<Descriptor>, args: seq<string>, c: Cursor)
    ensures var r := Tokenize(s, descs, args, c);
      r.Tokens? ==> |c.positional| <= |r.positional| && r.positional[..|c.positional|] == c.positional
    ensures var r := Tokenize(s, descs, args, c);
      r.Tokens? ==> |c.errors| <= |r.errors| && r.errors[..|c.errors|] == c.errors
    decreases |args| - c.index
  {
    if c.index < |args| {
      var c' := Step(s, descs, args, c);
      if c'.index != c.index {
        StepExtends(s, descs, args, c);
        TokenizeUnfold(s, descs, args, c);
        TokenizeExtends(s, descs, args, c');
      }
    }
  }

  /** The tokenizer as `Processor` runs it: from `start`, parsing, with no
      groups or positional tokens yet and the errors recorded so far. */
  function Run(s: Settings, descs: seq<Descriptor>, args: seq<string>, start: int, errors: seq<Error>): Tokens {
    Tokenize(s, descs, args, Cursor(start, true, [], [], errors))
  }

  // ---------------------------------------------------------------------
  // Divergence

  /** The cursor after `n` iterations of the source loop (or fewer, when
      the loop condition fails first). */
  function Iterate(s: Settings, descs: seq<Descriptor>, args: seq<string>, c: Cursor, n: nat): Cursor
    decreases n
  {
    if n == 0 || c.index >= |args| then c else Iterate(s, descs, args, Step(s, descs, args, c), n - 1)
  }

  /** An iteration that does not move the cursor leaves every part of the
      state it depends on unchanged, so the next iteration does not move it
      either: the source loop never ends. */
  lemma {:induction false} StuckForever(s: Settings, descs: seq<Descriptor>, args: seq<string>, c: Cursor, n: nat)
    requires c.index < |args| && Step(s, descs, args, c).index == c.index
    ensures Iterate(s, descs, args, c, n).index == c.index
    decreases n
  {
    if n > 0 {
      var c' := Step(s, descs, args, c);
      assert Step(s, descs, args, c').index == c'.index;
      StuckForever(s, descs, args, c', n - 1);
    }
  }

  /** From `d` the source loop never gets past index `d.index`. */
  ghost predicate NeverLeaves(s: Settings, descs: seq<Descriptor>, args: seq<string>, d: Cursor) {
    d.index < |args| && forall n: nat :: Iterate(s, descs, args, d, n).index == d.index
  }

  /** When `Tokenize` reports divergence, the source loop started at `c`
      reaches, after some number of iterations, a cursor it never gets
      past: the loop never ends. */
  lemma {:induction false} DivergesMeansLoopNeverEnds(s: Settings, descs: seq<Descriptor>, args: seq<string>, c: Cursor)
    requires Tokenize(s, descs, args, c).Diverges?
    ensures exists m: nat :: NeverLeaves(s, descs, args, Iterate(s, descs, args, c, m))
    decreases |args| - c.index
  {
    var c' := Step(s, descs, args, c);
    if c'.index == c.index {
      forall n: nat ensures Iterate(s, descs, args, c, n).index == c.index {
        StuckForever(s, descs, args, c, n);
      }
      assert Iterate(s, descs, args, c, 0) == c;
      assert NeverLeaves(s, descs, args, Iterate(s, descs, args, c, 0));
    } else {
      DivergesMeansLoopNeverEnds(s, descs, args, c');
      var k: nat :| NeverLeaves(s, descs, args, Iterate(s, descs, args, c', k));
      assert Iterate(s, descs, args, c, k + 1) == Iterate(s, descs, args, c', k);
    }
  }

  /** A negative start index never terminates. */
  lemma NegativeStartDiverges(s: Settings, descs: seq<Descriptor>, args: seq<string>, start: int, errors: seq<Error>)
    requires start < 0
    ensures Run(s, descs, args, start, errors).Diverges?
  {
  }

  // ---------------------------------------------------------------------
  // Properties of the loop

  /** The kind of token `i` once trimmed and classified. */
  function KindAt(s: Settings, args: seq<string>, i: nat): Kind
    requires i < |args|
  {
    Classify(s.switchPrefixes, Trim(args[i]))
  }

  /** The text a token adds to the positional list once switch parsing has
      stopped: a value its trimmed text, a switch its name without the
      prefix, a further end marker nothing. */
  function SuspendedToken(prefixes: seq<string>, token: string): (r: seq<string>)
    ensures |r| <= 1
  {
    match Classify(prefixes, Trim(token))
    case EndSwitchMarker => []
    case ValueArg(v) => [v]
    case SwitchArg(t) => [t]
  }

  function SuspendedText(prefixes: seq<string>, tokens: seq<string>): (r: seq<string>)
    ensures |r| <= |tokens|
  {
    if tokens == [] then [] else SuspendedToken(prefixes, tokens[0]) + SuspendedText(prefixes, tokens[1..])
  }

  lemma SuspendedTextFrom(prefixes: seq<string>, args: seq<string>, i: nat)
    requires i < |args|
    ensures SuspendedText(prefixes, args[i..]) == SuspendedToken(prefixes, args[i]) + SuspendedText(prefixes, args[i + 1..])
  {
    assert args[i..][0] == args[i];
    assert args[i..][1..] == args[i + 1..];
  }

  lemma SuspendedAppend(prefixes: seq<string>, p: seq<string>, args: seq<string>, i: nat)
    requires i < |args|
    ensures (p + SuspendedToken(prefixes, args[i])) + SuspendedText(prefixes, args[i + 1..])
         == p + SuspendedText(prefixes, args[i..])
  {
    SuspendedTextFrom(prefixes, args, i);
  }

  /** One iteration with switch parsing suspended. */
  lemma StepSuspended(s: Settings, descs: seq<Descriptor>, args: seq<string>, c: Cursor)
    requires 0 <= c.index < |args| && !c.parsing
    ensures Step(s, descs, args, c)
         == c.(index := c.index + 1, positional := c.positional + SuspendedToken(s.switchPrefixes, args[c.index]))
  {
  }

  /** One iteration over a value token while parsing. */
  lemma StepValue(s: Settings, descs: seq<Descriptor>, args: seq<string>, c: Cursor)
    requires 0 <= c.index < |args| && KindAt(s, args, c.index).ValueArg?
    ensures Step(s, descs, args, c)
         == c.(index := c.index + 1, positional := c.positional + SuspendedToken(s.switchPrefixes, args[c.index]))
  {
  }

  lemma TokenizeSuspended(s: Settings, descs: seq<Descriptor>, args: seq<string>, c: Cursor)
    requires 0 <= c.index < |args| && !c.parsing
    ensures Tokenize(s, descs, args, c) == Tokenize(s, descs, args,
      c.(index := c.index + 1, positional := c.positional + SuspendedToken(s.switchPrefixes, args[c.index])))
  {
    StepSuspended(s, descs, args, c);
  }

  /** Once an end-of-switches marker has been seen, no token is read as a
      switch any more: every later token goes to the positional list, no
      group changes and no error is recorded. */
  lemma {:induction false} SuspendedTail(s: Settings, descs: seq<Descriptor>, args: seq<string>, c: Cursor)
    requires 0 <= c.index <= |args| && !c.parsing
    ensures Tokenize(s, descs, args, c)
         == Tokens(c.groups, c.positional + SuspendedText(s.switchPrefixes, args[c.index..]), c.errors)
    decreases |args| - c.index
  {
    if c.index < |args| {
      var tok := SuspendedToken(s.switchPrefixes, args[c.index]);
      var c' := c.(index := c.index + 1, positional := c.positional + tok);
      TokenizeSuspended(s, descs, args, c);
      SuspendedTail(s, descs, args, c');
      SuspendedAppend(s.switchPrefixes, c.positional, args, c.index);
    }
  }

  /** An end marker met while parsing is dropped and suspends switch
      parsing for the rest of the input. */
  lemma EndMarkerSuspends(s: Settings, descs: seq<Descriptor>, args: seq<string>, c: Cursor)
    requires 0 <= c.index < |args| && KindAt(s, args, c.index) == EndSwitchMarker
    ensures Tokenize(s, descs, args, c)
         == Tokens(c.groups, c.positional + SuspendedText(s.switchPrefixes, args[c.index + 1..]), c.errors)
  {
    var c' := Step(s, descs, args, c);
    assert c' == c.(index := c.index + 1, parsing := false);
    SuspendedTail(s, descs, args, c');
  }

  /** No token, once trimmed, starts with a switch prefix. */
  predicate NoSwitches(prefixes: seq<string>, tokens: seq<string>) {
    tokens == [] || (Classify(prefixes, Trim(tokens[0])).ValueArg? && NoSwitches(prefixes, tokens[1..]))
  }

  lemma TokenizeValue(s: Settings, descs: seq<Descriptor>, args: seq<string>, c: Cursor)
    requires 0 <= c.index < |args| && KindAt(s, args, c.index).ValueArg?
    ensures Tokenize(s, descs, args, c) == Tokenize(s, descs, args,
      c.(index := c.index + 1, positional := c.positional + SuspendedToken(s.switchPrefixes, args[c.index])))
  {
    StepValue(s, descs, args, c);
  }

  /** The recursive case of `PlainInput`: a value token moves to the
      positional list and the rest of the loop is unchanged. */
  lemma PlainInputStep(s: Settings, descs: seq<Descriptor>, args: seq<string>, c: Cursor)
    requires 0 <= c.index < |args| && KindAt(s, args, c.index).ValueArg?
    requires var c' := c.(index := c.index + 1, positional := c.positional + SuspendedToken(s.switchPrefixes, args[c.index]));
      Tokenize(s, descs, args, c')
      == Tokens(c.groups, c'.positional + SuspendedText(s.switchPrefixes, args[c.index + 1..]), c.errors)
    ensures Tokenize(s, descs, args, c)
         == Tokens(c.groups, c.positional + SuspendedText(s.switchPrefixes, args[c.index..]), c.errors)
  {
    var tok := SuspendedToken(s.switchPrefixes, args[c.index]);
    TokenizeValue(s, descs, args, c);
    SuspendedAppend(s.switchPrefixes, c.positional, args, c.index);
  }

  /** A command line with no switch-shaped token from the cursor on yields
      exactly its trimmed tokens as positional arguments. */
  lemma {:induction false} PlainInput(s: Settings, descs: seq<Descriptor>, args: seq<string>, c: Cursor)
    requires 0 <= c.index <= |args| && NoSwitches(s.switchPrefixes, args[c.index..])
    ensures Tokenize(s, descs, args, c)
         == Tokens(c.groups, c.positional + SuspendedText(s.switchPrefixes, args[c.index..]), c.errors)
    decreases |args| - c.index
  {
    if c.index < |args| {
      assert args[c.index..][0] == args[c.index] && args[c.index..][1..] == args[c.index + 1..];
      PlainInput(s, descs, args,
        c.(index := c.index + 1, positional := c.positional + SuspendedToken(s.switchPrefixes, args[c.index])));
      PlainInputStep(s, descs, args, c);
    }
  }

  /** The whole run over a switch-free command line: no groups, no errors,
      the trimmed tokens as positional arguments. */
  lemma PlainRun(s: Settings, descs: seq<Descriptor>, args: seq<string>, start: int)
    requires 0 <= start <= |args| && NoSwitches(s.switchPrefixes, args[start..])
    ensures Run(s, descs, args, start, []) == Tokens([], SuspendedText(s.switchPrefixes, args[start..]), [])
  {
    PlainInput(s, descs, args, Cursor(start, true, [], [], []));
    assert [] + SuspendedText(s.switchPrefixes, args[start..]) == SuspendedText(s.switchPrefixes, args[start..]);
  }

  // ---------------------------------------------------------------------
  // Shape of the groups handed to the binder

  /** A group as the loop stores it: a non-empty value list under a key
      that names a descriptor, with a single value unless the first
      descriptor the key names is a list. */
  predicate GroupOk(s: Settings, descs: seq<Descriptor>, g: Group) {
    && |g.values| > 0
    && GetDescriptor(descs, g.key, s.caseMatching).Some?
    && (!descs[GetDescriptor(descs, g.key, s.caseMatching).value].isList ==> |g.values| == 1)
  }

  predicate GroupsOk(s: Settings, descs: seq<Descriptor>, groups: seq<Group>) {
    DistinctKeys(groups) && forall i :: 0 <= i < |groups| ==> GroupOk(s, descs, groups[i])
  }

  lemma PutKeepsGroupsOk(s: Settings, descs: seq<Descriptor>, groups: seq<Group>, key: string, values: seq<string>)
    requires GroupsOk(s, descs, groups) && GroupOk(s, descs, Group(key, values))
    ensures GroupsOk(s, descs, Put(groups, key, values))
  {
  }

  lemma SwitchEffectKeepsGroupsOk(s: Settings, descs: seq<Descriptor>, args: seq<string>, i: nat,
                                  groups: seq<Group>, positional: seq<string>, raw: string, t: string)
    requires i < |args| && GroupsOk(s, descs, groups)
    ensures GroupsOk(s, descs, SwitchEffect(s, descs, args, i, groups, positional, raw, t).groups)
  {
    if s.noPrefix != "" {
      var p := PartsOf(s, t);
      match GetDescriptor(descs, p.key, s.caseMatching)
      case None =>
      case Some(di) =>
        var d := descs[di];
        if !(IsBool(d.memberType) && p.negated && p.inline.Some?) {
          var r := Store(s, d, p.negated, p.inline, args, i, groups, positional, p.key);
          var values := StoreValues(s, d, p.negated, p.inline, args, i);
          PutKeepsGroupsOk(s, descs, groups, p.key, values);
        }
    }
  }

  lemma StepKeepsGroupsOk(s: Settings, descs: seq<Descriptor>, args: seq<string>, c: Cursor)
    requires c.index < |args| && GroupsOk(s, descs, c.groups)
    ensures GroupsOk(s, descs, Step(s, descs, args, c).groups)
  {
    var e := StepEffect(s, descs, args, c.index, c.parsing, c.groups, c.positional);
    assert Step(s, descs, args, c).groups == e.groups;
    if 0 <= c.index && c.parsing && KindAt(s, args, c.index).SwitchArg? {
      var t := KindAt(s, args, c.index).name;
      assert e == SwitchEffect(s, descs, args, c.index, c.groups, c.positional, args[c.index], t);
      SwitchEffectKeepsGroupsOk(s, descs, args, c.index, c.groups, c.positional, args[c.index], t);
    } else {
      assert e.groups == c.groups;
    }
  }

  /** Every group the loop produces has distinct keys, names a descriptor
      and holds at least one value, exactly one for a non-list
      descriptor. */
  lemma {:induction false} TokenizeKeepsGroupsOk(s: Settings, descs: seq<Descriptor>, args: seq<string>, c: Cursor)
    requires GroupsOk(s, descs, c.groups)
    ensures Tokenize(s, descs, args, c).Tokens? ==> GroupsOk(s, descs, Tokenize(s, descs, args, c).groups)
    decreases |args| - c.index
  {
    if c.index < |args| {
      var c' := Step(s, descs, args, c);
      if c'.index != c.index {
        StepKeepsGroupsOk(s, descs, args, c);
        TokenizeUnfold(s, descs, args, c);
        TokenizeKeepsGroupsOk(s, descs, args, c');
      }
    }
  }

  lemma RunGroupsOk(s: Settings, descs: seq<Descriptor>, args: seq<string>, start: int, errors: seq<Error>)
    ensures Run(s, descs, args, start, errors).Tokens? ==> GroupsOk(s, descs, Run(s, descs, args, start, errors).groups)
  {
    TokenizeKeepsGroupsOk(s, descs, args, Cursor(start, true, [], [], errors));
  }

  // ---------------------------------------------------------------------
  // What one switch does

  /** The first descriptor `key` names, if any, has a boolean member. */
  predicate NamesBool(s: Settings, descs: seq<Descriptor>, key: string) {
    var m := GetDescriptor(descs, key, s.caseMatching);
    m.Some? && IsBool(descs[m.value].memberType)
  }

  /** The switch `t` makes the source loop retry it forever: with an empty
      negation prefix every switch does, otherwise a negated boolean switch
      given an inline value. */
  predicate Stalls(s: Settings, descs: seq<Descriptor>, t: string) {
    s.noPrefix == "" || (PartsOf(s, t).negated && PartsOf(s, t).inline.Some? && NamesBool(s, descs, PartsOf(s, t).key))
  }

  lemma SwitchStallsIff(s: Settings, descs: seq<Descriptor>, args: seq<string>, i: nat,
                        groups: seq<Group>, positional: seq<string>, raw: string, t: string)
    requires i < |args|
    ensures SwitchEffect(s, descs, args, i, groups, positional, raw, t).index == i <==> Stalls(s, descs, t)
  {
  }

  /** An iteration leaves the cursor in place exactly for a negative index
      or a stalling switch met while parsing; `Tokenize` then reports
      divergence. */
  lemma StepStallsIff(s: Settings, descs: seq<Descriptor>, args: seq<string>, c: Cursor)
    requires c.index < |args|
    ensures Step(s, descs, args, c).index == c.index
        <==> c.index < 0 || (c.parsing && KindAt(s, args, c.index).SwitchArg? && Stalls(s, descs, KindAt(s, args, c.index).name))
    ensures Step(s, descs, args, c).index == c.index ==> Tokenize(s, descs, args, c).Diverges?
  {
    if 0 <= c.index && c.parsing {
      match KindAt(s, args, c.index)
      case SwitchArg(t) =>
        SwitchStallsIff(s, descs, args, c.index, c.groups, c.positional, args[c.index], t);
      case _ =>
    }
  }

  /** A switch naming no descriptor is skipped: nothing is stored and the
      error names the key and its inline value (a key without one fails
      on the missing array element instead). */
  lemma UnknownSwitchSkipped(s: Settings, descs: seq<Descriptor>, args: seq<string>, i: nat,
                             groups: seq<Group>, positional: seq<string>, raw: string, t: string)
    requires i < |args| && s.noPrefix != ""
    requires GetDescriptor(descs, PartsOf(s, t).key, s.caseMatching).None?
    ensures var r := SwitchEffect(s, descs, args, i, groups, positional, raw, t);
      r.index == i + 1 && r.groups == groups && |r.newErrors| == 1
    ensures var p := PartsOf(s, t);
      var r := SwitchEffect(s, descs, args, i, groups, positional, raw, t);
      p.inline.Some? ==> r.newErrors[0] == ReasonError(Str(p.key), Str(p.inline.value), "Unknow command line switch: " + p.key)
    ensures var r := SwitchEffect(s, descs, args, i, groups, positional, raw, t);
      PartsOf(s, t).inline.None? ==> r.newErrors[0] == IndexOutOfRange
  {
  }

  /** A switch naming a descriptor, and not stalling, stores its values
      under the key with the negation prefix removed. */
  lemma KnownSwitchStores(s: Settings, descs: seq<Descriptor>, args: seq<string>, i: nat,
                          groups: seq<Group>, positional: seq<string>, raw: string, t: string)
    requires i < |args| && !Stalls(s, descs, t)
    requires GetDescriptor(descs, PartsOf(s, t).key, s.caseMatching).Some?
    ensures var p := PartsOf(s, t);
      var d := descs[GetDescriptor(descs, p.key, s.caseMatching).value];
      && !(IsBool(d.memberType) && p.negated && p.inline.Some?)
      && SwitchEffect(s, descs, args, i, groups, positional, raw, t)
         == Store(s, d, p.negated, p.inline, args, i, groups, positional, p.key)
  {
  }

  /** A boolean switch never reads the next token: its value is the inline
      one, else "True", or "False" when negated. */
  lemma BoolStore(s: Settings, d: Descriptor, negated: bool, inline: Option<string>, args: seq<string>, i: nat,
                  groups: seq<Group>, positional: seq<string>, key: string)
    requires i < |args| && IsBool(d.memberType) && !d.isList && !(negated && inline.Some?)
    ensures var r := Store(s, d, negated, inline, args, i, groups, positional, key);
      r.index == i + 1 && r.groups == Put(groups, key, [if negated then "False" else inline.GetOr("True")])
  {
    var v := if negated then "False" else inline.GetOr("True");
    assert FirstValue(s, d, negated, inline, args, i) == (v, i);
    assert [v] + args[i + 1..i + 1] == [v];
  }

  /** A single-valued non-boolean switch takes its inline value, else the
      next token unless that looks like a switch, else an empty value
      ("False" when negated). */
  lemma ScalarStore(s: Settings, d: Descriptor, negated: bool, inline: Option<string>, args: seq<string>, i: nat,
                    groups: seq<Group>, positional: seq<string>, key: string)
    requires i < |args| && !IsBool(d.memberType) && !d.isList
    ensures var r := Store(s, d, negated, inline, args, i, groups, positional, key);
      var next := i + 1 < |args| && !LooksLikeSwitch(s.switchPrefixes, args[i + 1]);
      && (inline.Some? ==> r.index == i + 1 && r.groups == Put(groups, key, [inline.value]))
      && (inline.None? && next ==> r.index == i + 2 && r.groups == Put(groups, key, [args[i + 1]]))
      && (inline.None? && !next ==> r.index == i + 1 && r.groups == Put(groups, key, [if negated then "False" else ""]))
  {
    var (value, j) := FirstValue(s, d, negated, inline, args, i);
    assert TakeList(s.switchPrefixes, args, j, false) == j;
    assert [value] + args[j + 1..j + 1] == [value];
  }

  /** A list switch also takes every following token up to the next one
      that looks like a switch, or to the end of the input. */
  lemma ListStoreStops(s: Settings, d: Descriptor, negated: bool, inline: Option<string>, args: seq<string>, i: nat,
                       groups: seq<Group>, positional: seq<string>, key: string)
    requires i < |args| && !IsBool(d.memberType) && d.isList
    ensures var r := Store(s, d, negated, inline, args, i, groups, positional, key);
      && (r.index == |args| || LooksLikeSwitch(s.switchPrefixes, args[r.index]))
      && forall k :: i + 1 < k < r.index ==> !LooksLikeSwitch(s.switchPrefixes, args[k])
  {
    var (value, j) := FirstValue(s, d, negated, inline, args, i);
    var e := TakeList(s.switchPrefixes, args, j, true);
    assert Store(s, d, negated, inline, args, i, groups, positional, key).index == e + 1;
  }

  lemma ListStoreInline(s: Settings, d: Descriptor, negated: bool, inline: Option<string>, args: seq<string>, i: nat,
                  groups: seq<Group>, positional: seq<string>, key: string)
    requires i < |args| && !IsBool(d.memberType) && d.isList && inline.Some?
    ensures var r := Store(s, d, negated, inline, args, i, groups, positional, key);
      r.groups == Put(groups, key, [inline.value] + args[i + 1..r.index])
  {
    assert FirstValue(s, d, negated, inline, args, i) == (inline.value, i);
  }

  lemma ListStoreNext(s: Settings, d: Descriptor, negated: bool, inline: Option<string>, args: seq<string>, i: nat,
                  groups: seq<Group>, positional: seq<string>, key: string)
    requires i < |args| && !IsBool(d.memberType) && d.isList && inline.None?
    requires i + 1 < |args| && !LooksLikeSwitch(s.switchPrefixes, args[i + 1])
    ensures var r := Store(s, d, negated, inline, args, i, groups, positional, key);
      r.groups == Put(groups, key, args[i + 1..r.index])
  {
    var first := FirstValue(s, d, negated, inline, args, i);
    assert first == (args[i + 1], i + 1);
    var e := StoreEnd(s, d, negated, inline, args, i);
    assert i + 1 <= e;
    var values := StoreValues(s, d, negated, inline, args, i);
    assert values == [args[i + 1]] + args[i + 2..e + 1];
    ConsSlice(args, i + 1, e + 1);
  }

  lemma ConsSlice<T>(a: seq<T>, k: nat, m: nat)
    requires k < m <= |a|
    ensures [a[k]] + a[k + 1..m] == a[k..m]
  {
  }

  lemma ListStoreEmpty(s: Settings, d: Descriptor, negated: bool, inline: Option<string>, args: seq<string>, i: nat,
                  groups: seq<Group>, positional: seq<string>, key: string)
    requires i < |args| && !IsBool(d.memberType) && d.isList && inline.None?
    requires !(i + 1 < |args| && !LooksLikeSwitch(s.switchPrefixes, args[i + 1]))
    ensures var r := Store(s, d, negated, inline, args, i, groups, positional, key);
      r.index == i + 1 && r.groups == Put(groups, key, [if negated then "False" else ""])
  {
    var v := if negated then "False" else "";
    assert FirstValue(s, d, negated, inline, args, i) == (v, i);
    assert StoreEnd(s, d, negated, inline, args, i) == i;
    assert StoreValues(s, d, negated, inline, args, i) == [v] + args[i + 1..i + 1] == [v];
  }

  /** The values a list switch stores: the first value followed by the
      tokens it went on to take. */
  lemma ListStore(s: Settings, d: Descriptor, negated: bool, inline: Option<string>, args: seq<string>, i: nat,
                  groups: seq<Group>, positional: seq<string>, key: string)
    requires i < |args| && !IsBool(d.memberType) && d.isList
    ensures var r := Store(s, d, negated, inline, args, i, groups, positional, key);
      var next := i + 1 < |args| && !LooksLikeSwitch(s.switchPrefixes, args[i + 1]);
      && (inline.Some? ==> r.groups == Put(groups, key, [inline.value] + args[i + 1..r.index]))
      && (inline.None? && next ==> r.groups == Put(groups, key, args[i + 1..r.index]))
      && (inline.None? && !next ==> r.index == i + 1 && r.groups == Put(groups, key, [if negated then "False" else ""]))
  {
    if inline.Some? {
      ListStoreInline(s, d, negated, inline, args, i, groups, positional, key);
    } else if i + 1 < |args| && !LooksLikeSwitch(s.switchPrefixes, args[i + 1]) {
      ListStoreNext(s, d, negated, inline, args, i, groups, positional, key);
    } else {
      ListStoreEmpty(s, d, negated, inline, args, i, groups, positional, key);
    }
  }

  /** With an empty negation prefix the first switch met while parsing is
      retried forever. */
  lemma EmptyNoPrefixDiverges(s: Settings, descs: seq<Descriptor>, args: seq<string>, c: Cursor)
    requires s.noPrefix == "" && 0 <= c.index < |args| && c.parsing && KindAt(s, args, c.index).SwitchArg?
    ensures Tokenize(s, descs, args, c).Diverges?
  {
    StepStallsIff(s, descs, args, c);
  }
}
