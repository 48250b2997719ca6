/** The select prompt with global hot keys (src/utils/global-context-select-list.ts):
    the selectable bounds, the initial cursor, and the key-press transition
    (global choices first, then Enter, then Up/Down stepping over separators
    and disabled items). Choice values are strings, as at every call site. */
module SelectPrompt {
  import opened Basics

  datatype Item = Separator | Choice(value: string, disabled: bool)

  /** `isSelectable`: neither a separator nor disabled. */
  predicate Selectable(it: Item) {
    it.Choice? && !it.disabled
  }

  /** `items.findIndex(isSelectable)` */
  function FirstSelectable(items: seq<Item>): (r: int)
    ensures r == -1 <==> forall i :: 0 <= i < |items| ==> !Selectable(items[i])
    ensures r != -1 ==> 0 <= r < |items| && Selectable(items[r]) &&
                        forall i :: 0 <= i < r ==> !Selectable(items[i])
  {
    if items == [] then -1
    else if Selectable(items[0]) then 0
    else
      var r := FirstSelectable(items[1..]);
      assert forall i :: 1 <= i < |items| ==> items[i] == items[1..][i - 1];
      if r == -1 then -1 else r + 1
  }

  /** `items.findLastIndex(isSelectable)` */
  function LastSelectable(items: seq<Item>): (r: int)
    ensures r == -1 <==> forall i :: 0 <= i < |items| ==> !Selectable(items[i])
    ensures r != -1 ==> 0 <= r < |items| && Selectable(items[r]) &&
                        forall i :: r < i < |items| ==> !Selectable(items[i])
  {
    if items == [] then -1
    else if Selectable(items[|items| - 1]) then |items| - 1
    else LastSelectable(items[..|items| - 1])
  }

  datatype Bounds = Bounds(first: nat, last: nat)

  const NoSelectable := "[select prompt] No selectable choices. All choices are disabled."

  /** The `bounds` memo: the first and last selectable positions, or the
      validation error when there are none. */
  function GetBounds(items: seq<Item>): (r: Result<Bounds, string>)
    ensures r.Err? <==> forall i :: 0 <= i < |items| ==> !Selectable(items[i])
    ensures r.Err? ==> r.error == NoSelectable
    ensures r.Ok? ==> var b := r.value;
      && b.first <= b.last < |items|
      && Selectable(items[b.first]) && Selectable(items[b.last])
      && (forall i :: 0 <= i < b.first ==> !Selectable(items[i]))
      && (forall i :: b.last < i < |items| ==> !Selectable(items[i]))
  {
    var first := FirstSelectable(items);
    var last := LastSelectable(items);
    if first < 0 then Err(NoSelectable) else Ok(Bounds(first, last))
  }

  /** `defaultItemIndex`: -1 without a default, else the first selectable
      item whose value is the default (or -1). */
  function DefaultIndex(items: seq<Item>, default: Option<string>): (r: int)
    ensures r == -1 || (0 <= r < |items| && Selectable(items[r]) && default == Some(items[r].value))
    ensures r == -1 <==> default.None? ||
                         forall i :: 0 <= i < |items| ==> !(Selectable(items[i]) && items[i].value == default.value)
    ensures r != -1 ==> forall i :: 0 <= i < r ==> !(Selectable(items[i]) && items[i].value == default.value)
  {
    if default.None? || items == [] then -1
    else if Selectable(items[0]) && items[0].value == default.value then 0
    else
      var r := DefaultIndex(items[1..], default);
      assert forall i :: 1 <= i < |items| ==> items[i] == items[1..][i - 1];
      if r == -1 then -1 else r + 1
  }

  /** The initial cursor: the default item when there is one, else the first
      selectable item; always a selectable position. */
  function InitialActive(items: seq<Item>, default: Option<string>): (r: nat)
    requires GetBounds(items).Ok?
    ensures r < |items| && Selectable(items[r])
    ensures DefaultIndex(items, default) == -1 ==> r == GetBounds(items).value.first
    ensures DefaultIndex(items, default) != -1 ==> r == DefaultIndex(items, default)
  {
    var d := DefaultIndex(items, default);
    if d == -1 then GetBounds(items).value.first else d
  }

  // ---------------------------------------------------------- global keys

  datatype Key = Key(name: string, ctrl: bool)

  datatype GlobalChoice = GlobalChoice(value: string, key: string)

  /** The matcher of `config.globalChoices.find` as written: a non-empty key
      matches every key name it contains; the comma-list and "ctrl+" tests
      are reached only by the empty key. */
  predicate KeyMatchesAsWritten(key: string, k: Key) {
    if |key| > 0 then Contains(key, k.name)
    else if Contains(key, ",") then k.name in Split(key, ',')
    else if Contains(key, "ctrl+") then k.ctrl && |Split(key, '+')| > 1 && k.name == Split(key, '+')[1]
    else key == k.name
  }

  /** As written, the matcher is plain substring containment for every
      non-empty key, and equality for the empty one. */
  lemma AsWrittenIsContainment(key: string, k: Key)
    ensures KeyMatchesAsWritten(key, k) <==> (if |key| > 0 then Contains(key, k.name) else k.name == "")
  {
    if |key| == 0 {
      assert !Contains(key, ",") && !Contains(key, "ctrl+");
    }
  }

  /** The matcher as evidently intended: a comma-separated list matches any
      of its names, "ctrl+x" matches x pressed with Ctrl, any other key only
      its own name. */
  predicate KeyMatches(key: string, k: Key) {
    if ',' in key then k.name in Split(key, ',')
    else if Contains(key, "ctrl+") then
      var parts := Split(key, '+');
      k.ctrl && |parts| > 1 && k.name == parts[1]
    else key == k.name
  }

  /** A plain key name matches only itself, with or without Ctrl. */
  lemma PlainKeyMatches(key: string, k: Key)
    requires ',' !in key && !Contains(key, "ctrl+")
    ensures KeyMatches(key, k) <==> k.name == key
  {
  }

  /** "ctrl+c" matches c pressed with Ctrl and nothing else. */
  lemma CtrlKeyMatches(k: Key)
    ensures KeyMatches("ctrl+c", k) <==> k.ctrl && k.name == "c"
  {
    ContainsAt("ctrl+c", "ctrl+", 0);
    assert Split("ctrl+c", '+') == ["ctrl", "c"] by {
      SplitJoin(["ctrl", "c"], '+');
      assert Join(["ctrl", "c"], ['+']) == "ctrl+c";
    }
  }

  /** A list "q,escape" matches exactly its two names. */
  lemma ListKeyMatches(k: Key)
    ensures KeyMatches("q,escape", k) <==> k.name == "q" || k.name == "escape"
  {
    assert "q,escape"[1] == ',';
    assert Split("q,escape", ',') == ["q", "escape"] by {
      SplitJoin(["q", "escape"], ',');
      assert Join(["q", "escape"], [',']) == "q,escape";
    }
  }

  /** The discrepancy: a global choice bound to "ctrl+b" fires when c is
      pressed without Ctrl, since "c" occurs in "ctrl+b". */
  lemma CtrlKeyMisfires()
    ensures KeyMatchesAsWritten("ctrl+b", Key("c", false))
    ensures !KeyMatches("ctrl+b", Key("c", false))
  {
    ContainsAt("ctrl+b", "c", 0);
    assert ',' !in "ctrl+b";
  }

  /** `globalChoices.find(...)`: the value of the first choice whose key
      matches. */
  function FindGlobal(globals: seq<GlobalChoice>, k: Key, matches: (string, Key) -> bool): (r: Option<string>)
    ensures r.None? <==> forall i :: 0 <= i < |globals| ==> !matches(globals[i].key, k)
    ensures r.Some? ==> exists i :: 0 <= i < |globals| && matches(globals[i].key, k) && r.value == globals[i].value &&
                          forall j :: 0 <= j < i ==> !matches(globals[j].key, k)
  {
    if globals == [] then None
    else if matches(globals[0].key, k) then Some(globals[0].value)
    else
      var r := FindGlobal(globals[1..], k, matches);
      assert forall i :: 1 <= i < |globals| ==> globals[i] == globals[1..][i - 1];
      if r.Some? then
        var i :| 0 <= i < |globals| - 1 && matches(globals[1..][i].key, k) && r.value == globals[1..][i].value &&
                 forall j :: 0 <= j < i ==> !matches(globals[1..][j].key, k);
        assert globals[i + 1] == globals[1..][i];
        r
      else r
  }

  /** At the prompt: with one global choice bound to "ctrl+b", a plain "c"
      finishes the prompt as written, but is an ordinary key as intended. */
  lemma GlobalMisfire(v: string)
    ensures FindGlobal([GlobalChoice(v, "ctrl+b")], Key("c", false), KeyMatchesAsWritten) == Some(v)
    ensures FindGlobal([GlobalChoice(v, "ctrl+b")], Key("c", false), KeyMatches) == None
  {
    CtrlKeyMisfires();
  }

  // ----------------------------------------------------------- stepping

  /** `isEnterKey`, `isUpKey`, `isDownKey` by key name. */
  predicate IsEnter(k: Key) { k.name == "enter" || k.name == "return" }
  predicate IsUp(k: Key) { k.name == "up" }
  predicate IsDown(k: Key) { k.name == "down" }

  /** One turn of the do-while, `(next + offset + items.length) % items.length`
      for a step of one: on by one place, wrapping at either end. */
  function Succ(n: nat, i: int, offset: int): (r: int)
    requires n > 0 && 0 <= i < n && (offset == 1 || offset == -1)
    ensures 0 <= r < n
  {
    if i + offset == n then 0 else if i + offset < 0 then n - 1 else i + offset
  }

  /** The wrapping step is the remainder the source computes. */
  lemma SuccIsRemainder(n: nat, i: int, offset: int)
    requires n > 0 && 0 <= i < n && (offset == 1 || offset == -1)
    ensures Succ(n, i, offset) == (i + offset + n) % n
  {
    var x := i + offset + n;
    if i + offset == n {
      ModUnique(x, n, 2, 0);
    } else if i + offset < 0 {
      ModUnique(x, n, 0, n - 1);
    } else {
      ModUnique(x, n, 1, i + offset);
    }
  }

  lemma ModUnique(x: int, n: int, q: int, r: int)
    requires n > 0 && 0 <= r < n && 0 <= q <= 2 && x == q * n + r
    ensures x % n == r
  {
    var q0 := x / n;
    assert x == q0 * n + x % n;
  }

  /** The position after `m` turns. */
  function Iter(n: nat, i: int, offset: int, m: nat): (r: int)
    requires n > 0 && 0 <= i < n && (offset == 1 || offset == -1)
    ensures 0 <= r < n
  {
    if m == 0 then i else Succ(n, Iter(n, i, offset, m - 1), offset)
  }

  /** After `m <= n` turns the cursor is `m` places on, wrapped once at most. */
  lemma {:induction false} IterClosed(n: nat, i: int, offset: int, m: nat)
    requires n > 0 && 0 <= i < n && (offset == 1 || offset == -1) && m <= n
    ensures offset == 1 ==> Iter(n, i, offset, m) == if i + m < n then i + m else i + m - n
    ensures offset == -1 ==> Iter(n, i, offset, m) == if i - m >= 0 then i - m else i - m + n
  {
    if m > 0 {
      IterClosed(n, i, offset, m - 1);
    }
  }

  /** After as many turns as there are items the cursor is back where it
      started, so the do-while ends on the start position at the latest. */
  lemma Period(n: nat, i: int, offset: int)
    requires n > 0 && 0 <= i < n && (offset == 1 || offset == -1)
    ensures Iter(n, i, offset, n) == i
  {
    IterClosed(n, i, offset, n);
  }

  /** The position the scan from turn `m` on reaches first. */
  function LandFrom(items: seq<Item>, i: nat, offset: int, m: nat): (r: nat)
    requires i < |items| && Selectable(items[i]) && (offset == 1 || offset == -1)
    requires 1 <= m <= |items|
    decreases |items| - m
  {
    var p := Iter(|items|, i, offset, m);
    if Selectable(items[p]) then p
    else
      Period(|items|, i, offset);
      LandFrom(items, i, offset, m + 1)
  }

  /** No selectable position is met in turns 1 to `m - 1`. */
  predicate Skipped(items: seq<Item>, i: nat, offset: int, m: nat)
    requires i < |items| && (offset == 1 || offset == -1)
  {
    forall j :: 1 <= j < m ==> !Selectable(items[Iter(|items|, i, offset, j)])
  }

  /** Where Up (`offset` -1) or Down (1) from a selectable position lands:
      the first selectable position met by stepping, wrapping around the ends;
      at worst the start position itself. */
  function Landing(items: seq<Item>, i: nat, offset: int): (r: nat)
    requires i < |items| && Selectable(items[i]) && (offset == 1 || offset == -1)
    ensures r < |items| && Selectable(items[r])
    ensures exists m :: 1 <= m <= |items| && r == Iter(|items|, i, offset, m) && Skipped(items, i, offset, m)
  {
    LandFromFacts(items, i, offset, 1);
    LandFrom(items, i, offset, 1)
  }

  lemma {:induction false} LandFromFacts(items: seq<Item>, i: nat, offset: int, m: nat)
    requires i < |items| && Selectable(items[i]) && (offset == 1 || offset == -1)
    requires 1 <= m <= |items|
    requires Skipped(items, i, offset, m)
    ensures LandFrom(items, i, offset, m) < |items| && Selectable(items[LandFrom(items, i, offset, m)])
    ensures exists m' :: m <= m' <= |items| && LandFrom(items, i, offset, m) == Iter(|items|, i, offset, m') &&
                         Skipped(items, i, offset, m')
    decreases |items| - m
  {
    var p := Iter(|items|, i, offset, m);
    if !Selectable(items[p]) {
      Period(|items|, i, offset);
      LandFromFacts(items, i, offset, m + 1);
    }
  }

  /** The scan never wraps when a selectable position lies ahead: Down lands
      on the nearest selectable position after `i` ... */
  lemma {:induction false} DownWithoutWrap(items: seq<Item>, i: nat, t: nat)
    requires i < t < |items| && Selectable(items[i]) && Selectable(items[t])
    requires forall k :: i < k < t ==> !Selectable(items[k])
    ensures Landing(items, i, 1) == t
  {
    var n := |items|;
    forall m | 1 <= m <= t - i
      ensures Iter(n, i, 1, m) == i + m
    {
      IterClosed(n, i, 1, m);
    }
    AheadScan(items, i, 1, t - i, 1);
  }

  /** ... and Up on the nearest one before it. */
  lemma {:induction false} UpWithoutWrap(items: seq<Item>, i: nat, t: nat)
    requires t < i < |items| && Selectable(items[i]) && Selectable(items[t])
    requires forall k :: t < k < i ==> !Selectable(items[k])
    ensures Landing(items, i, -1) == t
  {
    var n := |items|;
    forall m | 1 <= m <= i - t
      ensures Iter(n, i, -1, m) == i - m
    {
      IterClosed(n, i, -1, m);
    }
    AheadScan(items, i, -1, i - t, 1);
  }

  lemma {:induction false} AheadScan(items: seq<Item>, i: nat, offset: int, d: nat, m: nat)
    requires i < |items| && Selectable(items[i]) && (offset == 1 || offset == -1)
    requires 1 <= m <= d <= |items|
    requires Selectable(items[Iter(|items|, i, offset, d)])
    requires forall j :: m <= j < d ==> !Selectable(items[Iter(|items|, i, offset, j)])
    ensures LandFrom(items, i, offset, m) == Iter(|items|, i, offset, d)
    decreases d - m
  {
    if m < d {
      AheadScan(items, i, offset, d, m + 1);
    }
  }

  /** The nearest selectable position after `i`, when there is one. */
  lemma NearestAfter(items: seq<Item>, i: nat, last: nat) returns (t: nat)
    requires i < last < |items| && Selectable(items[last])
    ensures i < t <= last && Selectable(items[t]) && forall k :: i < k < t ==> !Selectable(items[k])
  {
    var rest := items[i + 1..];
    assert Selectable(rest[last - i - 1]);
    var f := FirstSelectable(rest);
    t := i + 1 + f;
    assert forall k :: i < k < t ==> items[k] == rest[k - i - 1];
  }

  /** The nearest selectable position before `i`, when there is one. */
  lemma NearestBefore(items: seq<Item>, i: nat, first: nat) returns (t: nat)
    requires first < i < |items| && Selectable(items[first])
    ensures first <= t < i && Selectable(items[t]) && forall k :: t < k < i ==> !Selectable(items[k])
  {
    var init := items[..i];
    assert Selectable(init[first]);
    t := LastSelectable(init);
    assert forall k :: t < k < i ==> items[k] == init[k];
  }

  /** The key-press transition on the prompt's state, once the global
      choices have been looked up: a matched global choice finishes with its
      value; Enter finishes with the value under the cursor; Up/Down move the
      cursor unless the prompt does not loop and the cursor is at that end;
      any other key changes nothing. */
  function Transition(items: seq<Item>, loop: bool, b: Bounds, status: Status, active: nat, k: Key,
                      global: Option<string>): (r: (Status, nat))
    requires GetBounds(items) == Ok(b) && active < |items| && Selectable(items[active])
    ensures r.1 < |items| && Selectable(items[r.1])
    ensures global.Some? ==> r == (Done(global.value), active)
    ensures global.None? && IsEnter(k) ==> r == (Done(items[active].value), active)
    ensures global.None? && !IsEnter(k) ==> r.0 == status
    ensures global.None? && !IsEnter(k) && !IsUp(k) && !IsDown(k) ==> r.1 == active
    ensures !loop && global.None? && !IsEnter(k) && IsUp(k) && active == b.first ==> r.1 == active
    ensures !loop && global.None? && !IsEnter(k) && !IsUp(k) && IsDown(k) && active == b.last ==> r.1 == active
    ensures !loop && global.None? && !IsEnter(k) && IsUp(k) && active != b.first ==>
              r.1 < active && forall j :: r.1 < j < active ==> !Selectable(items[j])
    ensures !loop && global.None? && !IsEnter(k) && !IsUp(k) && IsDown(k) && active != b.last ==>
              active < r.1 && forall j :: active < j < r.1 ==> !Selectable(items[j])
  {
    if global.Some? then (Done(global.value), active)
    else if IsEnter(k) then (Done(items[active].value), active)
    else if IsUp(k) || IsDown(k) then
      if loop || (IsUp(k) && active != b.first) || (IsDown(k) && active != b.last) then
        var offset := if IsUp(k) then -1 else 1;
        var next := Landing(items, active, offset);
        MovesToNearest(items, loop, b, active, k);
        (status, next)
      else (status, active)
    else (status, active)
  }

  lemma MovesToNearest(items: seq<Item>, loop: bool, b: Bounds, active: nat, k: Key)
    requires GetBounds(items) == Ok(b) && active < |items| && Selectable(items[active])
    ensures !loop && IsUp(k) && active != b.first ==>
              var r := Landing(items, active, -1);
              r < active && forall j :: r < j < active ==> !Selectable(items[j])
    ensures !loop && !IsUp(k) && IsDown(k) && active != b.last ==>
              var r := Landing(items, active, 1);
              active < r && forall j :: active < j < r ==> !Selectable(items[j])
  {
    if !loop && IsUp(k) && active != b.first {
      var t := NearestBefore(items, active, b.first);
      UpWithoutWrap(items, active, t);
    }
    if !loop && !IsUp(k) && IsDown(k) && active != b.last {
      var t := NearestAfter(items, active, b.last);
      DownWithoutWrap(items, active, t);
    }
  }

  // -------------------------------------------------------------- prompt

  datatype Status = Pending | Done(answer: string)

  /** The prompt's state: the `status` and `active` cells of the hook. */
  class Prompt {
    const items: seq<Item>
    const globals: seq<GlobalChoice>
    const loop: bool
    const bounds: Bounds
    var status: Status
    var active: nat

    ghost predicate Valid()
      reads this
    {
      && GetBounds(items) == Ok(bounds)
      && active < |items|
      && Selectable(items[active])
    }

    /** The first render: bounds computed, the cursor on the default. */
    constructor (items: seq<Item>, globals: seq<GlobalChoice>, loop: bool, default: Option<string>)
      requires GetBounds(items).Ok?
      ensures Valid()
      ensures this.items == items && this.globals == globals && this.loop == loop
      ensures status == Pending
      ensures active == InitialActive(items, default)
    {
      this.items := items;
      this.globals := globals;
      this.loop := loop;
      this.bounds := GetBounds(items).value;
      this.status := Pending;
      this.active := InitialActive(items, default);
    }

    /** The do-while of the Up/Down branch. */
    method Step(offset: int) returns (next: nat)
      requires Valid() && (offset == 1 || offset == -1)
      ensures next == Landing(items, active, offset)
    {
      var n := |items|;
      ghost var m: nat := 1;
      SuccIsRemainder(n, active, offset);
      next := (active + offset + n) % n;
      while !Selectable(items[next])
        invariant 1 <= m <= n
        invariant next == Iter(n, active, offset, m)
        invariant LandFrom(items, active, offset, 1) == LandFrom(items, active, offset, m)
        decreases n - m
      {
        Period(n, active, offset);
        SuccIsRemainder(n, next, offset);
        next := (next + offset + n) % n;
        m := m + 1;
      }
    }

    /** What follows a key press once the global choices have been looked
        up, on the prompt's cells. */
    method Handle(k: Key, global: Option<string>)
      requires Valid()
      modifies this
      ensures Valid()
      ensures (status, active) == Transition(items, loop, bounds, old(status), old(active), k, global)
    {
      if global.Some? {
        status := Done(global.value);
        return;
      }
      if IsEnter(k) {
        status := Done(items[active].value);
      } else if IsUp(k) || IsDown(k) {
        if loop || (IsUp(k) && active != bounds.first) || (IsDown(k) && active != bounds.last) {
          var offset := if IsUp(k) then -1 else 1;
          var next := Step(offset);
          active := next;
        }
      }
    }

    /** The key-press handler as written, with the containment matcher. */
    method Press(k: Key)
      requires Valid()
      modifies this
      ensures Valid()
      ensures (status, active) ==
        Transition(items, loop, bounds, old(status), old(active), k, FindGlobal(globals, k, KeyMatchesAsWritten))
    {
      Handle(k, FindGlobal(globals, k, KeyMatchesAsWritten));
    }

    /** The key-press handler with the intended matcher. */
    method PressCorrected(k: Key)
      requires Valid()
      modifies this
      ensures Valid()
      ensures (status, active) ==
        Transition(items, loop, bounds, old(status), old(active), k, FindGlobal(globals, k, KeyMatches))
    {
      Handle(k, FindGlobal(globals, k, KeyMatches));
    }
  }

  /** Opening the prompt: the validation error when no item is selectable. */
  method Open(items: seq<Item>, globals: seq<GlobalChoice>, loop: bool, default: Option<string>)
    returns (r: Result<Prompt, string>)
    ensures r.Err? <==> forall i :: 0 <= i < |items| ==> !Selectable(items[i])
    ensures r.Err? ==> r.error == NoSelectable
    ensures r.Ok? ==> fresh(r.value) && r.value.Valid() && r.value.status == Pending &&
                      r.value.active == InitialActive(items, default)
  {
    var b := GetBounds(items);
    if b.Err? {
      return Err(b.error);
    }
    var p := new Prompt(items, globals, loop, default);
    return Ok(p);
  }
}
