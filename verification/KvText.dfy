/** The `key=value` text format of the on-disk lease record
    (src/kv_text.rs, `serialize_lease_record` and `parse_lease_record` in src/ha.rs). */
module KvText {
  import opened Basics
  import opened HaPolicy

  // ----- Characters and trimming -----

  /** The Unicode White_Space characters, which `str::trim` removes. */
  predicate IsSpace(c: char) {
    var n := c as int;
    || 0x09 <= n <= 0x0D || n == 0x20 || n == 0x85 || n == 0xA0 || n == 0x1680
    || 0x2000 <= n <= 0x200A || n == 0x2028 || n == 0x2029 || n == 0x202F || n == 0x205F || n == 0x3000
  }

  function TrimStart(s: string): string {
    if s != "" && IsSpace(s[0]) then TrimStart(s[1..]) else s
  }

  function TrimEnd(s: string): string {
    if s != "" && IsSpace(s[|s| - 1]) then TrimEnd(s[..|s| - 1]) else s
  }

  function Trim(s: string): string {
    TrimEnd(TrimStart(s))
  }

  /** Neither end is whitespace. */
  predicate Trimmed(s: string) {
    s != "" ==> !IsSpace(s[0]) && !IsSpace(s[|s| - 1])
  }

  lemma {:induction false} TrimStartShape(s: string) returns (k: nat)
    ensures k <= |s| && TrimStart(s) == s[k..] && (k < |s| ==> !IsSpace(s[k]))
    ensures forall i :: 0 <= i < k ==> IsSpace(s[i])
  {
    if s != "" && IsSpace(s[0]) {
      var k' := TrimStartShape(s[1..]);
      k := k' + 1;
      assert s[1..][k'..] == s[k..];
    } else {
      k := 0;
    }
  }

  lemma {:induction false} TrimEndShape(s: string) returns (k: nat)
    ensures k <= |s| && TrimEnd(s) == s[..k] && (k > 0 ==> !IsSpace(s[k - 1]))
    ensures forall i :: k <= i < |s| ==> IsSpace(s[i])
  {
    if s != "" && IsSpace(s[|s| - 1]) {
      k := TrimEndShape(s[..|s| - 1]);
      assert s[..|s| - 1][..k] == s[..k];
    } else {
      k := |s|;
      assert s[..k] == s;
    }
  }

  /** Trimming yields a trimmed substring, and changes nothing that is already trimmed. */
  lemma TrimShape(s: string) returns (a: nat, b: nat)
    ensures a <= b <= |s| && Trim(s) == s[a..b] && Trimmed(Trim(s))
    ensures Trimmed(s) <==> Trim(s) == s
  {
    a := TrimStartShape(s);
    var k := TrimEndShape(s[a..]);
    b := a + k;
    assert s[a..][..k] == s[a..b];
  }

  /** What trimming removes is whitespace, at both ends. */
  lemma TrimRemovesSpace(s: string) returns (a: nat, b: nat)
    ensures a <= b <= |s| && Trim(s) == s[a..b]
    ensures forall i :: 0 <= i < a || b <= i < |s| ==> IsSpace(s[i])
  {
    a := TrimStartShape(s);
    var k := TrimEndShape(s[a..]);
    b := a + k;
    assert s[a..][..k] == s[a..b];
    forall i | b <= i < |s| ensures IsSpace(s[i]) {
      assert s[i] == s[a..][i - a];
    }
  }

  // ----- Lines and fields -----

  function Find(s: string, c: char): (i: nat)
    ensures i <= |s| && (i < |s| ==> s[i] == c) && forall j :: 0 <= j < i ==> s[j] != c
  {
    if s == "" || s[0] == c then 0 else 1 + Find(s[1..], c)
  }

  function StripCr(s: string): string {
    if s != "" && s[|s| - 1] == '\r' then s[..|s| - 1] else s
  }

  /** `str::lines`. */
  function Lines(s: string): seq<string>
    decreases |s|
  {
    if s == "" then []
    else
      var i := Find(s, '\n');
      if i == |s| then [s] else [StripCr(s[..i])] + Lines(s[i + 1..])
  }

  datatype Parsed<+T> = Good(value: T) | Bad

  type Fields = map<string, string>

  /** One line of `parse_kv_lines`. */
  function AddLine(fields: Fields, rawLine: string, allowed: set<string>): Parsed<Fields> {
    var line := Trim(rawLine);
    if line == "" then Good(fields)
    else
      var i := Find(line, '=');
      if i == |line| then Bad
      else
        var key := Trim(line[..i]);
        if key !in allowed then Bad else Good(fields[key := Trim(line[i + 1..])])
  }

  function AddLines(lines: seq<string>, allowed: set<string>): Parsed<Fields> {
    if lines == [] then Good(map[])
    else
      var init := AddLines(lines[..|lines| - 1], allowed);
      if init.Bad? then Bad else AddLine(init.value, lines[|lines| - 1], allowed)
  }

  method ParseKvLines(input: string, allowed: set<string>) returns (r: Parsed<Fields>)
    ensures r == AddLines(Lines(input), allowed)
  {
    var lines := Lines(input);
    var fields: Fields := map[];
    for i := 0 to |lines|
      invariant AddLines(lines[..i], allowed) == Good(fields)
    {
      var r := ParseLine(fields, lines[i], allowed);
      NextLine(lines, allowed, i);
      if r.Bad? {
        BadLineSticks(lines, allowed, i + 1);
        return Bad;
      }
      fields := r.value;
    }
    assert lines[..|lines|] == lines;
    return Good(fields);
  }

  method ParseLine(fields: Fields, raw: string, allowed: set<string>) returns (r: Parsed<Fields>)
    ensures r == AddLine(fields, raw, allowed)
  {
    var line := Trim(raw);
    if line == "" {
      return Good(fields);
    }
    var eq := Find(line, '=');
    if eq == |line| {
      return Bad;
    }
    var key := Trim(line[..eq]);
    if key !in allowed {
      return Bad;
    }
    return Good(fields[key := Trim(line[eq + 1..])]);
  }

  lemma BlankLine(fields: Fields, line: string, allowed: set<string>)
    requires forall i :: 0 <= i < |line| ==> IsSpace(line[i])
    ensures AddLine(fields, line, allowed) == Good(fields)
  {
    var a, b := TrimShape(line);
    if a < b {
      assert Trim(line)[0] == line[a];
    }
  }

  lemma LineWithoutEquals(fields: Fields, line: string, allowed: set<string>, i: nat)
    requires '=' !in line && i < |line| && !IsSpace(line[i])
    ensures AddLine(fields, line, allowed).Bad?
  {
    var a, b := TrimRemovesSpace(line);
    assert '=' !in line[a..b];
  }

  lemma PairLine(fields: Fields, allowed: set<string>, key: string, value: string)
    requires '=' !in key && Trimmed(key + "=" + value)
    ensures AddLine(fields, key + "=" + value, allowed) ==
            if Trim(key) in allowed then Good(fields[Trim(key) := Trim(value)]) else Bad
  {
    var pair := key + "=" + value;
    var _, _ := TrimShape(pair);
    assert pair[|key|] == '=' && forall j :: 0 <= j < |key| ==> pair[j] == key[j];
    assert Find(pair, '=') == |key|;
    assert pair[..|key|] == key && pair[|key| + 1..] == value;
  }

  /** What each kind of line does: blank ones nothing, one without `=` or with an unknown
      key is an error, and any other sets its key, whatever was there before.  The first `=`
      separates, and whitespace around key and value does not count. */
  lemma LineVerdict(fields: Fields, line: string, allowed: set<string>, key: string, value: string)
    ensures (forall i :: 0 <= i < |line| ==> IsSpace(line[i])) ==> AddLine(fields, line, allowed) == Good(fields)
    ensures '=' !in line && (exists i :: 0 <= i < |line| && !IsSpace(line[i])) ==> AddLine(fields, line, allowed).Bad?
    ensures line == key + "=" + value && '=' !in key && Trimmed(line) ==>
              AddLine(fields, line, allowed) ==
              if Trim(key) in allowed then Good(fields[Trim(key) := Trim(value)]) else Bad
  {
    if i :| 0 <= i < |line| && !IsSpace(line[i]) {
      if '=' !in line {
        LineWithoutEquals(fields, line, allowed, i);
      }
    } else {
      BlankLine(fields, line, allowed);
    }
    if line == key + "=" + value && '=' !in key && Trimmed(line) {
      PairLine(fields, allowed, key, value);
    }
  }

  lemma NextLine(lines: seq<string>, allowed: set<string>, i: nat)
    requires i < |lines| && AddLines(lines[..i], allowed).Good?
    ensures AddLines(lines[..i + 1], allowed) == AddLine(AddLines(lines[..i], allowed).value, lines[i], allowed)
  {
    assert lines[..i + 1][..i] == lines[..i];
  }

  lemma {:induction false} BadLineSticks(lines: seq<string>, allowed: set<string>, n: nat)
    requires n <= |lines| && AddLines(lines[..n], allowed).Bad?
    ensures AddLines(lines, allowed).Bad?
  {
    if n < |lines| {
      assert lines[..|lines| - 1][..n] == lines[..n];
      BadLineSticks(lines[..|lines| - 1], allowed, n);
    } else {
      assert lines[..n] == lines;
    }
  }

  // ----- Numbers -----

  predicate IsDigit(c: char) {
    '0' <= c <= '9'
  }

  function Digit(n: nat): (c: char)
    requires n < 10
    ensures IsDigit(c)
  {
    '0' + n as char
  }

  function Show(n: nat): string {
    if n < 10 then [Digit(n)] else Show(n / 10) + [Digit(n % 10)]
  }

  function Digits(s: string): Option<nat> {
    if s == "" then Some(0)
    else
      var init := Digits(s[..|s| - 1]);
      var c := s[|s| - 1];
      if init.None? || !IsDigit(c) then None else Some(10 * init.value + (c as int - '0' as int))
  }

  /** `str::parse::<u64>`: an optional plus sign, at least one digit, no overflow. */
  function ParseU64(s: string): Option<nat> {
    var digits := if s != "" && s[0] == '+' then s[1..] else s;
    if digits == "" then None
    else
      var n := Digits(digits);
      if n.None? || n.value > U64_MAX then None else n
  }

  lemma {:induction false} ShowParses(n: nat)
    ensures |Show(n)| > 0 && (forall i :: 0 <= i < |Show(n)| ==> IsDigit(Show(n)[i]))
    ensures Digits(Show(n)) == Some(n)
  {
    if n >= 10 {
      ShowParses(n / 10);
      assert Show(n)[..|Show(n)| - 1] == Show(n / 10);
    } else {
      assert Show(n)[..0] == "";
      assert Digits("") == Some(0);
    }
  }

  lemma PrintedParses(n: nat)
    ensures ParseU64(Show(n)) == ParseU64("+" + Show(n)) == if n <= U64_MAX then Some(n) else None
  {
    ShowParses(n);
    assert ("+" + Show(n))[1..] == Show(n);
    assert IsDigit(Show(n)[0]);
  }

  lemma OtherTextFails(s: string, i: nat)
    requires 0 < i < |s| && !IsDigit(s[i])
    ensures ParseU64(s) == None
  {
    NotDigits(s, i);
    assert s[1..][i - 1] == s[i];
    NotDigits(s[1..], i - 1);
  }

  /** A printed number parses iff it fits, with or without a plus sign; anything but digits
      after the sign does not. */
  lemma ParsesExactlyWhen(n: nat, s: string)
    ensures ParseU64(Show(n)) == ParseU64("+" + Show(n)) == if n <= U64_MAX then Some(n) else None
    ensures s == "" || s == "+" || (exists i :: 0 < i < |s| && !IsDigit(s[i])) ==> ParseU64(s) == None
  {
    PrintedParses(n);
    if i :| 0 < i < |s| && !IsDigit(s[i]) {
      OtherTextFails(s, i);
    }
  }

  lemma {:induction false} NotDigits(s: string, i: nat)
    requires i < |s| && !IsDigit(s[i])
    ensures Digits(s) == None
  {
    if i < |s| - 1 {
      NotDigits(s[..|s| - 1], i);
    }
  }

  // ----- The lease record -----

  const HOLDER := "holder_node_id"
  const GENERATION := "generation"
  const RENEWED := "renewed_at_secs"
  const TTL := "ttl_secs"

  function RequireU64(fields: Fields, key: string): Option<nat> {
    if key in fields then ParseU64(fields[key]) else None
  }

  function LeaseOf(fields: Fields): Parsed<LeaseRecord> {
    if HOLDER !in fields || fields[HOLDER] == "" then Bad
    else
      var g, r, t := RequireU64(fields, GENERATION), RequireU64(fields, RENEWED), RequireU64(fields, TTL);
      if g.None? || r.None? || t.None? then Bad
      else Good(LeaseRecord(fields[HOLDER], g.value, r.value, t.value))
  }

  function ParseLease(input: string): Parsed<LeaseRecord> {
    var fields := AddLines(Lines(input), {HOLDER, GENERATION, RENEWED, TTL});
    if fields.Bad? then Bad else LeaseOf(fields.value)
  }

  /** The four fields, numbered as `serialize_lease_record` writes them. */
  function Key(i: nat): string {
    match i
    case 0 => HOLDER
    case 1 => GENERATION
    case 2 => RENEWED
    case _ => TTL
  }

  function Value(lease: LeaseRecord, i: nat): string {
    match i
    case 0 => lease.holder
    case 1 => Show(lease.generation)
    case 2 => Show(lease.renewedAt)
    case _ => Show(lease.ttl)
  }

  function Line(lease: LeaseRecord, i: nat): string {
    Key(i) + "=" + Value(lease, i)
  }

  /** The record with its lines in the given order. */
  function Text(lease: LeaseRecord, order: seq<nat>): string {
    if order == [] then "" else Line(lease, order[0]) + "\n" + Text(lease, order[1..])
  }

  function Serialize(lease: LeaseRecord): string {
    Text(lease, [0, 1, 2, 3])
  }

  /** The text of a record, and what makes a set of fields one: all four, the holder not
      empty, the numbers in range. */
  lemma RecordText(lease: LeaseRecord, fields: Fields)
    ensures Serialize(lease) ==
            "holder_node_id=" + lease.holder + "\n" +
            ("generation=" + Show(lease.generation) + "\n" +
             ("renewed_at_secs=" + Show(lease.renewedAt) + "\n" +
              ("ttl_secs=" + Show(lease.ttl) + "\n")))
    ensures LeaseOf(fields) == Good(lease) <==>
            && "holder_node_id" in fields && fields["holder_node_id"] == lease.holder != ""
            && "generation" in fields && ParseU64(fields["generation"]) == Some(lease.generation)
            && "renewed_at_secs" in fields && ParseU64(fields["renewed_at_secs"]) == Some(lease.renewedAt)
            && "ttl_secs" in fields && ParseU64(fields["ttl_secs"]) == Some(lease.ttl)
  {
    TextIs(lease);
  }

  lemma TextIs(lease: LeaseRecord)
    ensures Serialize(lease) ==
            Line(lease, 0) + "\n" + (Line(lease, 1) + "\n" + (Line(lease, 2) + "\n" + (Line(lease, 3) + "\n")))
    ensures Line(lease, 0) == "holder_node_id=" + lease.holder
    ensures Line(lease, 1) == "generation=" + Show(lease.generation)
    ensures Line(lease, 2) == "renewed_at_secs=" + Show(lease.renewedAt)
    ensures Line(lease, 3) == "ttl_secs=" + Show(lease.ttl)
  {
    assert [0, 1, 2, 3][1..] == [1, 2, 3] && [1, 2, 3][1..] == [2, 3] && [2, 3][1..] == [3] && [3][1..] == [];
    assert Text(lease, []) == "";
    assert Text(lease, [3]) == Line(lease, 3) + "\n";
    assert Text(lease, [2, 3]) == Line(lease, 2) + "\n" + Text(lease, [3]);
    assert Text(lease, [1, 2, 3]) == Line(lease, 1) + "\n" + Text(lease, [2, 3]);
    assert HOLDER + "=" == "holder_node_id=" && GENERATION + "=" == "generation=";
    assert RENEWED + "=" == "renewed_at_secs=" && TTL + "=" == "ttl_secs=";
  }

  // ----- Round trip -----

  predicate InU64(lease: LeaseRecord) {
    lease.generation <= U64_MAX && lease.renewedAt <= U64_MAX && lease.ttl <= U64_MAX
  }

  predicate NoNewline(s: string) {
    forall i :: 0 <= i < |s| ==> s[i] != '\n'
  }

  /** A holder the format can carry: not empty, no outer whitespace, no newline. */
  predicate CleanHolder(holder: string) {
    holder != "" && Trimmed(holder) && NoNewline(holder)
  }

  lemma KeysAreClean(i: nat)
    ensures Key(i) != "" && Trimmed(Key(i)) && Key(i) in {HOLDER, GENERATION, RENEWED, TTL}
    ensures forall j :: 0 <= j < |Key(i)| ==> Key(i)[j] != '=' && Key(i)[j] != '\n'
  {
  }

  lemma ValuesAreClean(lease: LeaseRecord, i: nat)
    requires CleanHolder(lease.holder)
    ensures CleanHolder(Value(lease, i))
  {
    ShowParses(lease.generation);
    ShowParses(lease.renewedAt);
    ShowParses(lease.ttl);
  }

  lemma LineIsClean(lease: LeaseRecord, i: nat)
    requires CleanHolder(lease.holder)
    ensures CleanHolder(Line(lease, i)) && Find(Line(lease, i), '=') == |Key(i)|
  {
    KeysAreClean(i);
    ValuesAreClean(lease, i);
    var line := Line(lease, i);
    assert line[|Key(i)|] == '=' && forall j :: 0 <= j < |Key(i)| ==> line[j] == Key(i)[j];
    assert forall j :: |Key(i)| < j < |line| ==> line[j] == Value(lease, i)[j - |Key(i)| - 1];
  }

  lemma LineParses(fields: Fields, lease: LeaseRecord, i: nat)
    requires CleanHolder(lease.holder)
    ensures AddLine(fields, Line(lease, i), {HOLDER, GENERATION, RENEWED, TTL}) ==
            Good(fields[Key(i) := Value(lease, i)])
  {
    var line := Line(lease, i);
    LineIsClean(lease, i);
    KeysAreClean(i);
    ValuesAreClean(lease, i);
    var _, _ := TrimShape(line);
    var _, _ := TrimShape(Key(i));
    var _, _ := TrimShape(Value(lease, i));
    assert line[..|Key(i)|] == Key(i) && line[|Key(i)| + 1..] == Value(lease, i);
  }

  function LinesIn(lease: LeaseRecord, order: seq<nat>): (lines: seq<string>)
    ensures |lines| == |order| && forall i :: 0 <= i < |order| ==> lines[i] == Line(lease, order[i])
  {
    if order == [] then [] else [Line(lease, order[0])] + LinesIn(lease, order[1..])
  }

  lemma FirstLine(line: string, rest: string)
    requires line != "" && NoNewline(line) && line[|line| - 1] != '\r'
    ensures Lines(line + "\n" + rest) == [line] + Lines(rest)
  {
    var text := line + "\n" + rest;
    assert text[|line|] == '\n' && forall j :: 0 <= j < |line| ==> text[j] == line[j];
    assert Find(text, '\n') == |line|;
    assert text[..|line|] == line && text[|line| + 1..] == rest;
  }

  lemma {:induction false} TextHasLines(lease: LeaseRecord, order: seq<nat>)
    requires CleanHolder(lease.holder)
    ensures Lines(Text(lease, order)) == LinesIn(lease, order)
  {
    if order != [] {
      LineIsClean(lease, order[0]);
      TextHasLines(lease, order[1..]);
      FirstLine(Line(lease, order[0]), Text(lease, order[1..]));
    }
  }

  /** The line sets `key` to `value` and does nothing else. */
  ghost predicate Sets(line: string, allowed: set<string>, key: string, value: string) {
    forall fields :: AddLine(fields, line, allowed) == Good(fields[key := value])
  }

  /** After any lines that agree on the value of each key, every key has its value. */
  lemma {:induction false} FieldsCollected(lines: seq<string>, allowed: set<string>,
                                           keys: seq<string>, values: seq<string>)
    requires |keys| == |values| == |lines|
    requires forall i :: 0 <= i < |lines| ==> Sets(lines[i], allowed, keys[i], values[i])
    requires forall i, j :: 0 <= i < j < |keys| && keys[i] == keys[j] ==> values[i] == values[j]
    ensures var r := AddLines(lines, allowed);
            r.Good? && forall i :: 0 <= i < |keys| ==> keys[i] in r.value && r.value[keys[i]] == values[i]
  {
    if lines != [] {
      var n := |lines| - 1;
      FieldsCollected(lines[..n], allowed, keys[..n], values[..n]);
      var init := AddLines(lines[..n], allowed);
      assert Sets(lines[n], allowed, keys[n], values[n]);
      var r := AddLines(lines, allowed);
      assert r == Good(init.value[keys[n] := values[n]]);
      forall i | 0 <= i < n ensures keys[i] in init.value && init.value[keys[i]] == values[i] {
        assert keys[..n][i] == keys[i] && values[..n][i] == values[i];
      }
    }
  }

  lemma KeysDiffer(i: nat, j: nat)
    requires i < 4 && j < 4 && Key(i) == Key(j)
    ensures i == j
  {
    assert |HOLDER| == 14 && |GENERATION| == 10 && |RENEWED| == 15 && |TTL| == 8;
  }

  lemma LeaseFromFields(lease: LeaseRecord, fields: Fields)
    requires CleanHolder(lease.holder) && InU64(lease)
    requires forall k: nat :: k < 4 ==> Key(k) in fields && fields[Key(k)] == Value(lease, k)
    ensures LeaseOf(fields) == Good(lease)
  {
    ShowParses(lease.generation);
    ShowParses(lease.renewedAt);
    ShowParses(lease.ttl);
    assert fields[Key(0)] == lease.holder && fields[Key(1)] == Show(lease.generation);
    assert fields[Key(2)] == Show(lease.renewedAt) && fields[Key(3)] == Show(lease.ttl);
  }

  lemma OrderCollects(lease: LeaseRecord, order: seq<nat>) returns (fields: Fields)
    requires CleanHolder(lease.holder)
    requires forall i :: 0 <= i < |order| ==> order[i] < 4
    ensures AddLines(LinesIn(lease, order), {HOLDER, GENERATION, RENEWED, TTL}) == Good(fields)
    ensures forall i :: 0 <= i < |order| ==> Key(order[i]) in fields && fields[Key(order[i])] == Value(lease, order[i])
  {
    var allowed := {HOLDER, GENERATION, RENEWED, TTL};
    var keys := seq(|order|, i requires 0 <= i < |order| => Key(order[i]));
    var values := seq(|order|, i requires 0 <= i < |order| => Value(lease, order[i]));
    var lines := LinesIn(lease, order);
    forall i | 0 <= i < |order| ensures Sets(lines[i], allowed, keys[i], values[i]) {
      forall f ensures AddLine(f, lines[i], allowed) == Good(f[keys[i] := values[i]]) {
        LineParses(f, lease, order[i]);
      }
    }
    forall i, j | 0 <= i < j < |keys| && keys[i] == keys[j] ensures values[i] == values[j] {
      KeysDiffer(order[i], order[j]);
    }
    FieldsCollected(lines, allowed, keys, values);
    fields := AddLines(lines, allowed).value;
    forall i | 0 <= i < |order| ensures Key(order[i]) in fields && fields[Key(order[i])] == Value(lease, order[i]) {
      assert keys[i] in fields && fields[keys[i]] == values[i];
    }
  }

  /** Whatever the order of its lines, a serialized record with a clean holder parses back
      to itself, for all `u64` fields. */
  lemma AnyOrderParses(lease: LeaseRecord, order: seq<nat>)
    requires CleanHolder(lease.holder) && InU64(lease)
    requires multiset(order) == multiset{0, 1, 2, 3}
    ensures ParseLease(Text(lease, order)) == Good(lease)
  {
    FourFields(order);
    TextHasLines(lease, order);
    var fields := OrderCollects(lease, order);
    ByKey(lease, order, fields);
    LeaseFromFields(lease, fields);
  }

  lemma ByKey(lease: LeaseRecord, order: seq<nat>, fields: Fields)
    requires forall i :: 0 <= i < |order| ==> Key(order[i]) in fields && fields[Key(order[i])] == Value(lease, order[i])
    requires forall k: nat :: k < 4 ==> k in order
    ensures forall k: nat :: k < 4 ==> Key(k) in fields && fields[Key(k)] == Value(lease, k)
  {
    forall k: nat | k < 4 ensures Key(k) in fields && fields[Key(k)] == Value(lease, k) {
      assert k in order;
      var i :| 0 <= i < |order| && order[i] == k;
    }
  }

  lemma FourFields(order: seq<nat>)
    requires multiset(order) == multiset{0, 1, 2, 3}
    ensures forall i :: 0 <= i < |order| ==> order[i] < 4
    ensures forall k: nat :: k < 4 ==> k in order
  {
    forall i | 0 <= i < |order| ensures order[i] < 4 {
      assert order[i] in multiset(order);
    }
    forall k: nat | k < 4 ensures k in order {
      assert k in multiset(order);
    }
  }

  // ----- The condition is exact -----

  lemma {:induction false} LinesHaveNoNewline(s: string)
    ensures forall i :: 0 <= i < |Lines(s)| ==> NoNewline(Lines(s)[i])
    decreases |s|
  {
    if s != "" && Find(s, '\n') < |s| {
      LinesHaveNoNewline(s[Find(s, '\n') + 1..]);
    }
  }

  ghost predicate CleanFields(fields: Fields) {
    forall k :: k in fields ==> Trimmed(fields[k]) && NoNewline(fields[k])
  }

  lemma AddLineClean(fields: Fields, raw: string, allowed: set<string>)
    requires CleanFields(fields) && NoNewline(raw) && AddLine(fields, raw, allowed).Good?
    ensures CleanFields(AddLine(fields, raw, allowed).value)
  {
    var line := Trim(raw);
    TrimClean(raw);
    if line != "" {
      var i := Find(line, '=');
      assert NoNewline(line[i + 1..]);
      TrimClean(line[i + 1..]);
    }
  }

  lemma TrimClean(s: string)
    requires NoNewline(s)
    ensures Trimmed(Trim(s)) && NoNewline(Trim(s))
  {
    var a, b := TrimShape(s);
  }

  lemma {:induction false} ParsedFieldsClean(lines: seq<string>, allowed: set<string>)
    requires AddLines(lines, allowed).Good? && forall i :: 0 <= i < |lines| ==> NoNewline(lines[i])
    ensures CleanFields(AddLines(lines, allowed).value)
  {
    if lines != [] {
      var init := lines[..|lines| - 1];
      ParsedFieldsClean(init, allowed);
      AddLineClean(AddLines(init, allowed).value, lines[|lines| - 1], allowed);
    }
  }

  /** No text whatsoever parses to a record with an unclean holder. */
  lemma ParsedHolderIsClean(input: string)
    requires ParseLease(input).Good?
    ensures CleanHolder(ParseLease(input).value.holder)
  {
    LinesHaveNoNewline(input);
    ParsedFieldsClean(Lines(input), {HOLDER, GENERATION, RENEWED, TTL});
  }

  /** The lease text round trip holds for exactly the clean holders ('=' included). */
  lemma RoundTripExactlyWhen(lease: LeaseRecord)
    requires InU64(lease)
    ensures ParseLease(Serialize(lease)) == Good(lease) <==> CleanHolder(lease.holder)
  {
    if CleanHolder(lease.holder) {
      AnyOrderParses(lease, [0, 1, 2, 3]);
    } else if ParseLease(Serialize(lease)).Good? {
      ParsedHolderIsClean(Serialize(lease));
    }
  }
}
