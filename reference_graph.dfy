/** The pure helpers of reference_graph.py: the size label and the name splitting of a node, and
    the element accessors that read the entries out of a resolved HashMap or HashSet. */
module ReferenceGraph {
  import opened Wrappers
  import opened Dicts
  import opened References
  import Blocks

  // ---------------------------------------------------------------------------------------
  // `'%d' % n`

  function DigitChar(d: nat): char
    requires d < 10
  {
    ('0' as int + d) as char
  }

  predicate IsDigit(c: char) {
    '0' <= c <= '9'
  }

  /** The decimal digits of n, without leading zeros. */
  function NatStr(n: nat): string
    decreases n
  {
    if n < 10 then [DigitChar(n)] else NatStr(n / 10) + [DigitChar(n % 10)]
  }

  /** `'%d' % n`: a minus sign before the digits of a negative n. */
  function IntStr(n: int): string {
    if n < 0 then "-" + NatStr(-n) else NatStr(n)
  }

  /** The number a string of decimal digits denotes. */
  function DigitsValue(s: string): nat
    requires forall i :: 0 <= i < |s| ==> IsDigit(s[i])
  {
    if s == [] then 0
    else
      assert IsDigit(s[|s| - 1]);
      DigitsValue(s[..|s| - 1]) * 10 + (s[|s| - 1] as int - '0' as int)
  }

  /** NatStr writes n in decimal: digits only, no leading zero, and they read back as n. */
  lemma {:induction false} NatStrValue(n: nat)
    ensures var s := NatStr(n);
      && |s| >= 1 && (forall i :: 0 <= i < |s| ==> IsDigit(s[i]))
      && (|s| > 1 ==> s[0] != '0')
      && DigitsValue(s) == n
    decreases n
  {
    if n >= 10 {
      NatStrValue(n / 10);
      var s := NatStr(n);
      assert s[..|s| - 1] == NatStr(n / 10);
    }
  }

  // ---------------------------------------------------------------------------------------
  // mem_str

  /** ReferenceGraphBuilder.mem_str: a byte count in B, or truncated to whole K, M or G. */
  function MemStr(n: int): string {
    if n < 1000 then IntStr(n) + "B"
    else if n < 1000 * 1000 then IntStr(n / 1000) + "K"
    else if n < 1000 * 1000 * 1000 then IntStr(n / (1000 * 1000)) + "M"
    else IntStr(n / (1000 * 1000 * 1000)) + "G"
  }

  /** The bytes one unit letter of mem_str stands for. */
  function Scale(unit: char): nat {
    match unit
    case 'K' => 1000
    case 'M' => 1000 * 1000
    case 'G' => 1000 * 1000 * 1000
    case _ => 1
  }

  /** For a count n >= 0, mem_str writes n in the largest unit it reaches, rounded down. */
  lemma MemStrMeaning(n: nat)
    ensures var s := MemStr(n);
      && |s| >= 2 && (forall i :: 0 <= i < |s| - 1 ==> IsDigit(s[i]))
      && InUnit(n, DigitsValue(s[..|s| - 1]), s[|s| - 1])
  {
    var q, u;
    if n < 1000 {
      q, u := n, 'B';
    } else if n < 1000 * 1000 {
      q, u := n / 1000, 'K';
    } else if n < 1000 * 1000 * 1000 {
      q, u := n / (1000 * 1000), 'M';
    } else {
      q, u := n / (1000 * 1000 * 1000), 'G';
    }
    assert MemStr(n) == NatStr(q) + [u];
    LabelParts(q, u);
    UnitOf(n, q, u);
  }

  /** q in the unit u is n: u is the largest of B, K, M, G that n reaches, q is n in that unit
      rounded down, and q stays below 1000 except in G. */
  predicate InUnit(n: nat, q: nat, u: char) {
    && u in {'B', 'K', 'M', 'G'}
    && Scale(u) * q <= n < Scale(u) * (q + 1)
    && (u != 'G' ==> q < 1000)
    && (u != 'B' ==> Scale(u) <= n)
  }

  /** The unit mem_str picks for n, with n divided down to it. */
  lemma UnitOf(n: nat, q: nat, u: char)
    requires || (n < 1000 && q == n && u == 'B')
             || (1000 <= n < 1000 * 1000 && q == n / 1000 && u == 'K')
             || (1000 * 1000 <= n < 1000 * 1000 * 1000 && q == n / (1000 * 1000) && u == 'M')
             || (1000 * 1000 * 1000 <= n && q == n / (1000 * 1000 * 1000) && u == 'G')
    ensures InUnit(n, q, u)
  {
  }

  /** The digits of q followed by a unit letter: the digits read back as q. */
  lemma LabelParts(q: nat, u: char)
    ensures var s := NatStr(q) + [u];
      && |s| >= 2 && (forall i :: 0 <= i < |s| - 1 ==> IsDigit(s[i]))
      && s[|s| - 1] == u && DigitsValue(s[..|s| - 1]) == q
  {
    var s := NatStr(q) + [u];
    NatStrValue(q);
    assert s[..|s| - 1] == NatStr(q);
  }

  // ---------------------------------------------------------------------------------------
  // split_name

  /** The characters split_name may break before: `c.isupper() or c == '<'`. */
  predicate Breakable(c: char) {
    'A' <= c <= 'Z' || c == '<'
  }

  /** `''.join(acc)`. */
  function Concat(xs: seq<string>): string
    decreases |xs|
  {
    if xs == [] then [] else xs[0] + Concat(xs[1..])
  }

  lemma {:induction false} ConcatSnoc(xs: seq<string>, x: string)
    ensures Concat(xs + [x]) == Concat(xs) + x
    decreases |xs|
  {
    if xs != [] {
      assert (xs + [x])[1..] == xs[1..] + [x];
      ConcatSnoc(xs[1..], x);
    }
  }

  /** What split_name's loop appends for the characters n, starting with lineLength characters
      on the current line. */
  function SplitFrom(n: string, max: int, lineLength: nat): string
    decreases |n|
  {
    if n == [] then []
    else if lineLength > max && Breakable(n[0]) then "-\n" + [n[0]] + SplitFrom(n[1..], max, 1)
    else [n[0]] + SplitFrom(n[1..], max, lineLength + 1)
  }

  lemma Assoc(a: string, b: string, c: string)
    ensures (a + b) + c == a + (b + c)
  {
  }

  /** One character of split_name's loop: a break before it when the line is long enough, then
      the character. */
  lemma SplitStep(n: string, i: nat, max: int, lineLength: nat)
    requires i < |n|
    ensures SplitFrom(n[i..], max, lineLength)
         == if lineLength > max && Breakable(n[i]) then "-\n" + ([n[i]] + SplitFrom(n[i + 1..], max, 1))
            else [n[i]] + SplitFrom(n[i + 1..], max, lineLength + 1)
  {
    assert n[i..][1..] == n[i + 1..];
  }

  /** ReferenceGraphBuilder.split_name, max being max_name_characters. */
  method SplitName(n: string, max: int) returns (r: string)
    ensures r == SplitFrom(n, max, 0)
  {
    var acc: seq<string> := [];
    var lineLength := 0;
    for i := 0 to |n|
      invariant Concat(acc) + SplitFrom(n[i..], max, lineLength) == SplitFrom(n, max, 0)
    {
      var c := n[i];
      SplitStep(n, i, max, lineLength);
      ghost var tail := SplitFrom(n[i + 1..], max, if lineLength > max && Breakable(c) then 1 else lineLength + 1);
      if lineLength > max && Breakable(c) {
        ConcatSnoc(acc, "-\n");
        Assoc(Concat(acc), "-\n", [c] + tail);
        acc := acc + ["-\n"];
        lineLength := 0;
      }
      ConcatSnoc(acc, [c]);
      Assoc(Concat(acc), [c], tail);
      acc := acc + [[c]];
      lineLength := lineLength + 1;
    }
    assert n[|n|..] == [];
    r := Concat(acc);
  }

  /** Lines joined by the break `-\n`. */
  function Join(lines: seq<string>): string
    requires |lines| >= 1
    decreases |lines|
  {
    if |lines| == 1 then lines[0] else lines[0] + "-\n" + Join(lines[1..])
  }

  /** The line length split_name counts before line j, start characters being already on the
      first line. */
  function Offset(j: nat, start: nat): nat {
    if j == 0 then start else 0
  }

  /** lines is how split_name lays out n: together they are n; each line but the last is longer
      than max; each line after the first starts with a character it may break before; and no
      other such character comes once a line is longer than max. */
  predicate Layout(lines: seq<string>, n: string, max: int, start: nat) {
    && |lines| >= 1 && Concat(lines) == n
    && (forall j :: 0 <= j < |lines| - 1 ==> Offset(j, start) + |lines[j]| > max)
    && (forall j :: 1 <= j < |lines| ==> |lines[j]| > 0 && Breakable(lines[j][0]))
    && (forall j, i :: 0 <= j < |lines| && 0 <= i < |lines[j]| && (j == 0 || i > 0) && Offset(j, start) + i > max
          ==> !Breakable(lines[j][i]))
  }

  /** The first line of lines with c put in front of it. */
  function Prepend(c: char, lines: seq<string>): seq<string>
    requires |lines| >= 1
  {
    [[c] + lines[0]] + lines[1..]
  }

  /** The lines split_name cuts n into. */
  function LinesFrom(n: string, max: int, start: nat): (lines: seq<string>)
    ensures |lines| >= 1
    decreases |n|
  {
    if n == [] then [""]
    else if start > max && Breakable(n[0]) then [""] + Prepend(n[0], LinesFrom(n[1..], max, 1))
    else Prepend(n[0], LinesFrom(n[1..], max, start + 1))
  }

  /** Putting c in front of the first line keeps the join and the concatenation in step. */
  lemma {:induction false} PrependJoin(c: char, lines: seq<string>)
    requires |lines| >= 1
    ensures Join(Prepend(c, lines)) == [c] + Join(lines)
    ensures Concat(Prepend(c, lines)) == [c] + Concat(lines)
  {
    var p := Prepend(c, lines);
    assert p[1..] == lines[1..];
    assert Concat(p) == p[0] + Concat(lines[1..]);
    assert Concat(lines) == lines[0] + Concat(lines[1..]);
    if |lines| > 1 {
      assert Join(p) == p[0] + ("-\n" + Join(lines[1..]));
      assert Join(lines) == lines[0] + ("-\n" + Join(lines[1..]));
    }
  }

  /** Putting c in front of the first line of a layout of n, when c does not break it, lays out
      [c] + n. */
  lemma {:induction false} PrependLayout(c: char, lines: seq<string>, n: string, max: int, start: nat)
    requires Layout(lines, n, max, start + 1)
    requires !(start > max && Breakable(c))
    ensures Layout(Prepend(c, lines), [c] + n, max, start)
  {
    var p := Prepend(c, lines);
    PrependJoin(c, lines);
    forall j, i | 0 <= j < |p| && 0 <= i < |p[j]| && (j == 0 || i > 0) && Offset(j, start) + i > max
      ensures !Breakable(p[j][i])
    {
      if j == 0 && i > 0 {
        assert p[0][i] == lines[0][i - 1];
      } else if j > 0 {
        assert p[j] == lines[j];
      }
    }
    forall j | 1 <= j < |p| ensures |p[j]| > 0 && Breakable(p[j][0]) {
      assert p[j] == lines[j];
    }
    forall j | 0 <= j < |p| - 1 ensures Offset(j, start) + |p[j]| > max {
      if j > 0 {
        assert p[j] == lines[j];
      }
    }
  }

  /** A break before c: an empty piece of the current line, then c opening the next line. */
  lemma BreakLayout(c: char, lines: seq<string>, n: string, max: int, start: nat)
    requires Layout(lines, n, max, 1)
    requires start > max && Breakable(c)
    ensures Layout([""] + Prepend(c, lines), [c] + n, max, start)
  {
    var p := Prepend(c, lines);
    var q := [""] + p;
    PrependJoin(c, lines);
    assert q[1..] == p;
    forall j, i | 0 <= j < |q| && 0 <= i < |q[j]| && (j == 0 || i > 0) && Offset(j, start) + i > max
      ensures !Breakable(q[j][i])
    {
      if j == 1 {
        assert q[1][i] == lines[0][i - 1];
      } else {
        assert q[j] == lines[j - 1];
      }
    }
    forall j | 1 <= j < |q| ensures |q[j]| > 0 && Breakable(q[j][0]) {
      if j > 1 {
        assert q[j] == lines[j - 1];
      }
    }
    forall j | 0 <= j < |q| - 1 ensures Offset(j, start) + |q[j]| > max {
      if j > 1 {
        assert q[j] == lines[j - 1];
      }
    }
  }

  /** split_name inserts `-\n` between the lines of a layout of n and nowhere else: deleting the
      inserted breaks gives back n, and a break stands only before an uppercase letter or '<'
      once the line is longer than max. */
  lemma {:induction false} SplitLayout(n: string, max: int, start: nat)
    ensures Layout(LinesFrom(n, max, start), n, max, start)
    ensures SplitFrom(n, max, start) == Join(LinesFrom(n, max, start))
    decreases |n|
  {
    if n != [] {
      var c := n[0];
      assert [c] + n[1..] == n;
      if start > max && Breakable(c) {
        var lines := LinesFrom(n[1..], max, 1);
        SplitLayout(n[1..], max, 1);
        BreakLayout(c, lines, n[1..], max, start);
        PrependJoin(c, lines);
        assert ([""] + Prepend(c, lines))[1..] == Prepend(c, lines);
      } else {
        var lines := LinesFrom(n[1..], max, start + 1);
        SplitLayout(n[1..], max, start + 1);
        PrependLayout(c, lines, n[1..], max, start);
        PrependJoin(c, lines);
      }
    }
  }

  // ---------------------------------------------------------------------------------------
  // hash_map_get_elements, hash_set_get_elements, generic_get_elements

  /** An entry (k, v) of a map: its key and value as the entry object's children hold them. */
  type Pair = (Slot, Slot)

  /** `r.children[name]` for a field name. */
  function Child(refs: map<nat, Reference>, id: nat, name: string): Option<Slot>
    requires id in refs
  {
    Get(refs[id].children, Name(Blocks.Unicode(name)))
  }

  /** generic_get_elements: an object of no known collection has no elements. */
  function GenericGetElements(refs: map<nat, Reference>, id: nat): seq<Pair> {
    []
  }

  /** The pair a table entry s yields: none for a null entry or an entry object without a 'key'
      or a 'value' child, otherwise its key and its value. */
  function EntryOf(refs: map<nat, Reference>, s: Slot): Option<Pair>
    requires SlotIn(refs, s)
  {
    if s.target.None? then None
    else
      var k, v := Child(refs, s.target.value, "key"), Child(refs, s.target.value, "value");
      if k.None? || v.None? then None else Some((k.value, v.value))
  }

  /** The loop of hash_map_get_elements over the table's values ch[i..], in the order the table
      holds them, keeping the pair of each entry that yields one. */
  function EntriesFrom(refs: map<nat, Reference>, ch: Children, i: nat): seq<Pair>
    requires forall j :: 0 <= j < |ch| ==> SlotIn(refs, ch[j].1)
    decreases |ch| - i
  {
    if i >= |ch| then []
    else
      assert SlotIn(refs, ch[i].1);
      var rest := EntriesFrom(refs, ch, i + 1);
      match EntryOf(refs, ch[i].1)
      case None => rest
      case Some(p) => [p] + rest
  }

  /** In a resolved graph every child of a reference is resolved into the table. */
  lemma ChildIn(refs: map<nat, Reference>, id: nat, name: string)
    requires Graph(refs) && id in refs
    ensures Child(refs, id, name).Some? ==> SlotIn(refs, Child(refs, id, name).value)
  {
    var ch := refs[id].children;
    var k := Name(Blocks.Unicode(name));
    if Child(refs, id, name).Some? {
      var i := GetIndex(ch, k);
      assert SlotIn(refs, ch[i].1);
    }
  }

  /** The index Get finds a key at. */
  lemma {:induction false} GetIndex(d: Children, k: Key) returns (i: nat)
    requires Get(d, k).Some?
    ensures i < |d| && d[i].1 == Get(d, k).value
    decreases |d|
  {
    if d[0].0 == k {
      i := 0;
    } else {
      var j := GetIndex(d[1..], k);
      i := j + 1;
    }
  }

  /** hash_map_get_elements: no 'table' child gives no elements; a table that is null raises
      AttributeError (`None.children`); otherwise the pairs its entries hold. */
  function HashMapSpec(refs: map<nat, Reference>, id: nat): Result<seq<Pair>>
    requires Graph(refs) && id in refs
  {
    match Child(refs, id, "table")
    case None => Success(GenericGetElements(refs, id))
    case Some(t) =>
      ChildIn(refs, id, "table");
      if t.target.None? then Failure(AttributeError)
      else Success(EntriesFrom(refs, refs[t.target.value].children, 0))
  }

  /** ReferenceGraph's hash_map_get_elements on the reference id of a resolved table refs. */
  method HashMapGetElements(refs: map<nat, Reference>, id: nat) returns (r: Result<seq<Pair>>)
    requires Graph(refs) && id in refs
    ensures r == HashMapSpec(refs, id)
  {
    var table := Child(refs, id, "table");
    if table.None? {
      assert HashMapSpec(refs, id) == Success([]);
      return Success(GenericGetElements(refs, id));
    }
    ChildIn(refs, id, "table");
    if table.value.target.None? {
      assert HashMapSpec(refs, id) == Failure(AttributeError);
      return Failure(AttributeError);
    }
    assert HashMapSpec(refs, id) == Success(EntriesFrom(refs, refs[table.value.target.value].children, 0));
    var ch := refs[table.value.target.value].children;
    var acc: seq<Pair> := [];
    for i := 0 to |ch|
      invariant acc + EntriesFrom(refs, ch, i) == EntriesFrom(refs, ch, 0)
    {
      var e := ch[i].1.target;
      if e.None? {
        continue;
      }
      var k, v := Child(refs, e.value, "key"), Child(refs, e.value, "value");
      if k.None? || v.None? {
        continue;
      }
      acc := acc + [(k.value, v.value)];
    }
    assert EntriesFrom(refs, ch, |ch|) == [];
    assert acc + EntriesFrom(refs, ch, |ch|) == EntriesFrom(refs, ch, 0);
    assert acc == EntriesFrom(refs, ch, 0);
    r := Success(acc);
  }

  /** The loop keeps at most one pair per entry of ch[i..]. */
  lemma {:induction false} EntriesBound(refs: map<nat, Reference>, ch: Children, i: nat)
    requires i <= |ch| && forall j :: 0 <= j < |ch| ==> SlotIn(refs, ch[j].1)
    ensures |EntriesFrom(refs, ch, i)| <= |ch| - i
    decreases |ch| - i
  {
    if i < |ch| {
      EntriesBound(refs, ch, i + 1);
    }
  }

  /** The pairs of the loop are exactly the pairs the entries ch[i..] hold. */
  lemma {:induction false} EntriesMembers(refs: map<nat, Reference>, ch: Children, i: nat, p: Pair)
    requires i <= |ch| && forall j :: 0 <= j < |ch| ==> SlotIn(refs, ch[j].1)
    ensures p in EntriesFrom(refs, ch, i) <==> exists j :: i <= j < |ch| && EntryOf(refs, ch[j].1) == Some(p)
    decreases |ch| - i
  {
    if i < |ch| {
      EntriesMembers(refs, ch, i + 1, p);
      EntryHead(refs, ch, i, p);
      forall j | i <= j < |ch| && EntryOf(refs, ch[j].1) == Some(p) && j != i
        ensures i + 1 <= j
      {
      }
    }
  }

  /** The loop keeps the pair of entry ch[i], if it holds one, before those of the entries after. */
  lemma EntryHead(refs: map<nat, Reference>, ch: Children, i: nat, p: Pair)
    requires i < |ch| && forall j :: 0 <= j < |ch| ==> SlotIn(refs, ch[j].1)
    ensures p in EntriesFrom(refs, ch, i) <==> EntryOf(refs, ch[i].1) == Some(p) || p in EntriesFrom(refs, ch, i + 1)
  {
    assert SlotIn(refs, ch[i].1);
  }

  /** hash_map_get_elements returns [] without a 'table' child, raises AttributeError for a null
      table, and otherwise returns exactly the pairs of the table's entries that have a 'key' and
      a 'value', at most one per entry. */
  lemma HashMapElements(refs: map<nat, Reference>, id: nat, p: Pair)
    requires Graph(refs) && id in refs
    ensures Child(refs, id, "table").None? ==> HashMapSpec(refs, id) == Success([])
    ensures Child(refs, id, "table") == Some(Resolved(None)) ==> HashMapSpec(refs, id) == Failure(AttributeError)
    ensures var t := Child(refs, id, "table");
      t.Some? && t.value.Resolved? && t.value.target.Some? ==>
      && t.value.target.value in refs
      && HashMapSpec(refs, id).Success?
      && var ch := refs[t.value.target.value].children;
         && |HashMapSpec(refs, id).value| <= |ch|
         && (p in HashMapSpec(refs, id).value <==> exists j :: 0 <= j < |ch| && EntryOf(refs, ch[j].1) == Some(p))
  {
    ChildIn(refs, id, "table");
    var t := Child(refs, id, "table");
    if t.Some? && t.value.target.Some? {
      EntriesMembers(refs, refs[t.value.target.value].children, 0, p);
      EntriesBound(refs, refs[t.value.target.value].children, 0);
    }
  }

  /** hash_set_get_elements: no 'map' child gives no elements; a null map raises AttributeError
      inside hash_map_get_elements; otherwise the keys of the map's pairs, in order. */
  function HashSetGetElements(refs: map<nat, Reference>, id: nat): Result<seq<Slot>>
    requires Graph(refs) && id in refs
  {
    match Child(refs, id, "map")
    case None => Success(Keys(GenericGetElements(refs, id)))
    case Some(m) =>
      ChildIn(refs, id, "map");
      if m.target.None? then Failure(AttributeError)
      else
        var pairs :- HashMapSpec(refs, m.target.value);
        Success(Keys(pairs))
  }

  /** `[k for k, v in pairs]`. */
  function Keys(pairs: seq<Pair>): seq<Slot> {
    seq(|pairs|, i requires 0 <= i < |pairs| => pairs[i].0)
  }

  /** k is among the keys of pairs exactly when some pair has key k. */
  lemma KeysMembers(pairs: seq<Pair>, k: Slot)
    ensures |Keys(pairs)| == |pairs|
    ensures k in Keys(pairs) <==> exists v :: (k, v) in pairs
  {
    if k in Keys(pairs) {
      var i :| 0 <= i < |pairs| && Keys(pairs)[i] == k;
      assert (k, pairs[i].1) == pairs[i];
    }
    if exists v :: (k, v) in pairs {
      var v :| (k, v) in pairs;
      var i :| 0 <= i < |pairs| && pairs[i] == (k, v);
      assert Keys(pairs)[i] == k;
    }
  }

  /** hash_set_get_elements returns [] without a 'map' child and raises AttributeError for a null
      map; otherwise it succeeds exactly when hash_map_get_elements on the map does, with one
      element per pair, and k is an element exactly when some pair of the map has key k. */
  lemma HashSetElements(refs: map<nat, Reference>, id: nat, k: Slot)
    requires Graph(refs) && id in refs
    ensures Child(refs, id, "map").None? ==> HashSetGetElements(refs, id) == Success([])
    ensures Child(refs, id, "map") == Some(Resolved(None)) ==> HashSetGetElements(refs, id) == Failure(AttributeError)
    ensures var m := Child(refs, id, "map");
      m.Some? && m.value.Resolved? && m.value.target.Some? ==>
        && m.value.target.value in refs
        && var pairs := HashMapSpec(refs, m.value.target.value);
           && (HashSetGetElements(refs, id).Success? <==> pairs.Success?)
           && (pairs.Success? ==>
                 && |HashSetGetElements(refs, id).value| == |pairs.value|
                 && (k in HashSetGetElements(refs, id).value <==> exists v :: (k, v) in pairs.value))
  {
    ChildIn(refs, id, "map");
    var m := Child(refs, id, "map");
    assert Keys([]) == [];
    if m.Some? && m.value.target.Some? {
      var pairs := HashMapSpec(refs, m.value.target.value);
      if pairs.Success? {
        KeysMembers(pairs.value, k);
      }
    }
  }
}
