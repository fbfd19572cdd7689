/** Plugin option strings: the escaping printer, the parser's splitting, pairing and unescaping
  * passes, and the filter that drops launcher options. */
module PluginOptions {
  import opened Bytes
  import Utf8

  // ---- Characters. ----

  /** Unicode white space, which `trim` removes. */
  predicate White(c: char) {
    '\t' <= c <= '\r' || c == ' ' || c == '\U{85}' || c == '\U{A0}' || c == '\U{1680}' ||
    '\U{2000}' <= c <= '\U{200A}' || c == '\U{2028}' || c == '\U{2029}' || c == '\U{202F}' ||
    c == '\U{205F}' || c == '\U{3000}'
  }

  function TrimStart(s: string): (r: string)
    ensures r != [] ==> !White(r[0])
  {
    if s != [] && White(s[0]) then TrimStart(s[1..]) else s
  }

  function TrimEnd(s: string): (r: string)
    ensures r != [] ==> !White(r[|r| - 1])
    ensures s != [] && !White(s[0]) ==> r != [] && r[0] == s[0]
  {
    if s != [] && White(s[|s| - 1]) then TrimEnd(s[..|s| - 1]) else s
  }

  function Trim(s: string): string {
    TrimEnd(TrimStart(s))
  }

  lemma WhiteByNumber(c: char)
    ensures White(c) <==> Utf8.WhiteScalar(c as int)
  {
  }

  ghost predicate AllWhite(s: string) {
    forall c :: c in s ==> White(c)
  }

  ghost predicate Trimmed(s: string) {
    s == [] || (!White(s[0]) && !White(s[|s| - 1]))
  }

  lemma {:induction false} TrimsStart(a: string, r: string)
    requires AllWhite(a)
    ensures TrimStart(a + r) == TrimStart(r)
  {
    hide White;
    if a == [] {
      assert a + r == r;
    } else {
      assert a[0] in a && (a + r)[1..] == a[1..] + r;
      TrimsStart(a[1..], r);
    }
  }

  lemma {:induction false} TrimsEnd(r: string, b: string)
    requires AllWhite(b)
    ensures TrimEnd(r + b) == TrimEnd(r)
    decreases |b|
  {
    hide White;
    if b == [] {
      assert r + b == r;
    } else {
      var n := |b| - 1;
      assert b[n] in b && (r + b)[..|r + b| - 1] == r + b[..n] && (r + b)[|r + b| - 1] == b[n];
      TrimsEnd(r, b[..n]);
    }
  }

  lemma {:induction false} StartTrimmed(s: string) returns (a: string)
    ensures AllWhite(a) && s == a + TrimStart(s)
  {
    hide White;
    a := [];
    if s != [] && White(s[0]) {
      var more := StartTrimmed(s[1..]);
      a := [s[0]] + more;
      Assoc([s[0]], more, TrimStart(s));
      assert s == [s[0]] + s[1..] && TrimStart(s) == TrimStart(s[1..]);
      hide TrimStart;
    } else {
      assert [] + s == s;
    }
  }

  lemma {:induction false} EndTrimmed(s: string) returns (b: string)
    ensures AllWhite(b) && s == TrimEnd(s) + b
    decreases |s|
  {
    hide White;
    b := [];
    if s != [] && White(s[|s| - 1]) {
      var n := |s| - 1;
      var more := EndTrimmed(s[..n]);
      b := more + [s[n]];
      Assoc(TrimEnd(s), more, [s[n]]);
      assert s == s[..n] + [s[n]] && TrimEnd(s) == TrimEnd(s[..n]);
      hide TrimEnd;
    } else {
      assert s + [] == s;
    }
  }

  /** Trimming, exactly: white space in front and behind goes, and nothing else. */
  lemma TrimExactly(s: string, r: string)
    ensures Trim(s) == r <==> Trimmed(r) && exists a, b :: AllWhite(a) && AllWhite(b) && s == a + r + b
  {
    hide White, TrimStart, TrimEnd, AllWhite;
    if Trimmed(r) && exists a, b :: AllWhite(a) && AllWhite(b) && s == a + r + b {
      var a, b :| AllWhite(a) && AllWhite(b) && s == a + r + b;
      Assoc(a, r, b);
      TrimsStart(a, r + b);
      BareStays(r, b);
    }
    if Trim(s) == r {
      var a := StartTrimmed(s);
      var b := EndTrimmed(TrimStart(s));
      Assoc(a, r, b);
      assert s == a + r + b;
    }
  }

  lemma BareStays(r: string, b: string)
    requires Trimmed(r) && AllWhite(b)
    ensures TrimEnd(TrimStart(r + b)) == r
  {
    hide White;
    if r == [] {
      assert r + b == b && b + [] == b && [] + b == b;
      TrimsStart(b, []);
    } else {
      assert TrimStart(r + b) == r + b;
      TrimsEnd(r, b);
    }
  }

  /** `to_ascii_lowercase`. */
  function Lower(s: string): string {
    if s == [] then [] else [if 'A' <= s[0] <= 'Z' then s[0] - 'A' + 'a' else s[0]] + Lower(s[1..])
  }

  /** Character by character: the letters A to Z, codes 65 to 90, become those 32 codes above. */
  lemma {:induction false} LowerAt(s: string, i: nat)
    requires i < |s|
    ensures |Lower(s)| == |s|
    ensures Lower(s)[i] == if 65 <= s[i] as int <= 90 then (s[i] as int + 32) as char else s[i]
    decreases |s|
  {
    if i > 0 {
      LowerAt(s[1..], i - 1);
    } else if |s| > 1 {
      LowerAt(s[1..], 0);
    }
  }

  // ---- The parser's passes, read from the front. ----

  /** Puts text in front of the first item. */
  function Before(p: string, items: seq<string>): (r: seq<string>)
    requires items != []
    ensures |r| == |items|
  {
    [p + items[0]] + items[1..]
  }

  /** The items between unescaped semicolons, escapes kept. */
  function Items(s: string): (r: seq<string>)
    ensures r != []
    decreases |s|
  {
    if s == [] then [[]]
    else if s[0] == '\\' then (if |s| == 1 then [s] else Before(s[..2], Items(s[2..])))
    else if s[0] == ';' then [[]] + Items(s[1..])
    else Before(s[..1], Items(s[1..]))
  }

  /** Key and value around the first unescaped equals sign, escapes kept. */
  function PairOf(s: string): Option<(string, string)>
    decreases |s|
  {
    if s == [] then None
    else if s[0] == '\\' then (if |s| == 1 then None else WithKey(s[..2], PairOf(s[2..])))
    else if s[0] == '=' then Some(([], s[1..]))
    else WithKey(s[..1], PairOf(s[1..]))
  }

  function WithKey(p: string, r: Option<(string, string)>): Option<(string, string)> {
    if r == None then None else Some((p + r.value.0, r.value.1))
  }

  function Unescape(s: string): string
    decreases |s|
  {
    if s == [] then []
    else if s[0] == '\\' then (if |s| == 1 then s else [s[1]] + Unescape(s[2..]))
    else [s[0]] + Unescape(s[1..])
  }

  function KeyOf(raw: string): string {
    Lower(Trim(Unescape(raw)))
  }

  /** What one item contributes: nothing without an equals sign or without a key. */
  function Contribution(item: string): map<string, string> {
    match PairOf(item)
    case None => map[]
    case Some((k, v)) => if KeyOf(k) == [] then map[] else map[KeyOf(k) := Trim(Unescape(v))]
  }

  /** Later items override earlier ones. */
  function Collect(items: seq<string>): map<string, string> {
    if items == [] then map[] else Contribution(items[0]) + Collect(items[1..])
  }

  function Parse(options: string): map<string, string> {
    Collect(Items(options))
  }

  // ---- The passes as they are written. ----

  lemma BeforeNothing(items: seq<string>)
    requires items != []
    ensures Before([], items) == items
  {
    assert [] + items[0] == items[0];
  }

  lemma BeforeTwice(a: string, b: string, items: seq<string>)
    requires items != []
    ensures Before(a, Before(b, items)) == Before(a + b, items)
  {
    Assoc(a, b, items[0]);
  }

  /** One character or one escape, with `current` collected before it. */
  lemma {:induction false} ItemTurn(items: seq<string>, current: string, rest: string)
    requires rest != []
    ensures rest[0] == '\\' && |rest| > 1 ==>
              Before(current, Items(rest)) == Before(current + rest[..2], Items(rest[2..]))
    ensures rest[0] == ';' ==>
              items + Before(current, Items(rest)) == items + [current] + Before([], Items(rest[1..]))
    ensures rest[0] != '\\' && rest[0] != ';' ==>
              Before(current, Items(rest)) == Before(current + rest[..1], Items(rest[1..]))
  {
    NextItem(items, current, Items(rest[1..]));
    BeforeTwice(current, rest[..1], Items(rest[1..]));
    if |rest| > 1 {
      BeforeTwice(current, rest[..2], Items(rest[2..]));
    }
  }

  lemma LastItem(current: string, rest: string)
    requires rest == [] || rest == ['\\']
    ensures Before(current, Items(rest)) == [current + rest]
  {
  }

  /** `split_plugin_options`. */
  method SplitPluginOptions(options: string) returns (items: seq<string>)
    ensures items == Items(options)
  {
    hide Items, Before;
    items := [];
    var current, escaped := [], false;
    var i := 0;
    ghost var from := 0;
    assert options[0..] == options;
    BeforeNothing(Items(options));
    while i < |options|
      invariant i <= |options| && from == (if escaped then i - 1 else i) && from >= 0
      invariant escaped ==> options[i - 1] == '\\'
      invariant Items(options) == items + Before(current, Items(options[from..]))
    {
      var ch := options[i];
      ghost var rest := options[from..];
      if escaped {
        assert rest[..2] == ['\\', ch] && rest[2..] == options[i + 1..];
        ItemTurn(items, current, rest);
        current, escaped := current + ['\\', ch], false;
      } else if ch == '\\' {
        escaped := true;
      } else if ch == ';' {
        assert rest[1..] == options[i + 1..];
        ItemTurn(items, current, rest);
        items, current := items + [current], [];
      } else {
        assert rest[..1] == [ch] && rest[1..] == options[i + 1..];
        ItemTurn(items, current, rest);
        current := current + [ch];
      }
      i := i + 1;
      from := if escaped then i - 1 else i;
    }
    assert options[from..] == if escaped then ['\\'] else [];
    LastItem(current, options[from..]);
    if escaped {
      current := current + ['\\'];
    } else {
      assert current + [] == current;
    }
    items := items + [current];
  }

  lemma NextItem(items: seq<string>, current: string, rest: seq<string>)
    requires rest != []
    ensures items + Before(current, [[]] + rest) == items + [current] + Before([], rest)
  {
    BeforeNothing(rest);
    assert Before(current, [[]] + rest) == [current + []] + rest;
    assert current + [] == current;
    Assoc(items, [current], rest);
  }

  lemma WithKeyTwice(a: string, b: string, r: Option<(string, string)>)
    ensures WithKey(a, WithKey(b, r)) == WithKey(a + b, r)
  {
    if r.Some? {
      Assoc(a, b, r.value.0);
    }
  }

  /** One character or one escape of an item, with `key` in front. */
  lemma {:induction false} PairTurn(key: string, rest: string)
    requires rest != []
    ensures rest[0] == '\\' && |rest| > 1 ==>
              WithKey(key, PairOf(rest)) == WithKey(key + rest[..2], PairOf(rest[2..]))
    ensures rest[0] == '=' ==> WithKey(key, PairOf(rest)) == Some((key, rest[1..]))
    ensures rest[0] != '\\' && rest[0] != '=' ==>
              WithKey(key, PairOf(rest)) == WithKey(key + rest[..1], PairOf(rest[1..]))
  {
    assert key + [] == key;
    WithKeyTwice(key, rest[..1], PairOf(rest[1..]));
    if |rest| > 1 {
      WithKeyTwice(key, rest[..2], PairOf(rest[2..]));
    }
  }

  lemma NoPair(key: string, rest: string)
    requires rest == [] || rest == ['\\']
    ensures WithKey(key, PairOf(rest)) == None
  {
  }

  lemma WithNoKey(r: Option<(string, string)>)
    ensures WithKey([], r) == r
  {
    if r.Some? {
      assert [] + r.value.0 == r.value.0;
    }
  }

  /** `split_plugin_option_pair`. */
  method SplitPluginOptionPair(item: string) returns (r: Option<(string, string)>)
    ensures r == PairOf(item)
  {
    hide PairOf, WithKey;
    var key, value, escaped, seenEqual := [], [], false, false;
    var i := 0;
    ghost var from := 0;
    assert item[0..] == item;
    WithNoKey(PairOf(item));
    while i < |item|
      invariant i <= |item| && from == (if escaped then i - 1 else i) && from >= 0
      invariant escaped ==> item[i - 1] == '\\'
      invariant !seenEqual ==> value == [] && PairOf(item) == WithKey(key, PairOf(item[from..]))
      invariant seenEqual ==> PairOf(item) == Some((key, value + item[from..]))
    {
      var ch := item[i];
      ghost var rest := item[from..];
      if escaped {
        assert rest == ['\\', ch] + item[i + 1..] && rest[..2] == ['\\', ch] && rest[2..] == item[i + 1..];
        PairTurn(key, rest);
        Assoc(value, ['\\', ch], item[i + 1..]);
        if seenEqual {
          value := value + ['\\', ch];
        } else {
          key := key + ['\\', ch];
        }
        escaped := false;
      } else if ch == '\\' {
        escaped := true;
      } else if ch == '=' && !seenEqual {
        seenEqual := true;
        PairTurn(key, rest);
        assert rest[1..] == item[i + 1..] && value + item[i + 1..] == item[i + 1..];
      } else {
        assert rest == [ch] + item[i + 1..] && rest[..1] == [ch] && rest[1..] == item[i + 1..];
        PairTurn(key, rest);
        Assoc(value, [ch], item[i + 1..]);
        if seenEqual {
          value := value + [ch];
        } else {
          key := key + [ch];
        }
      }
      i := i + 1;
      from := if escaped then i - 1 else i;
    }
    NoPair(key, item[from..]);
    if escaped {
      assert item[from..] == ['\\'];
      if seenEqual {
        value := value + ['\\'];
      } else {
        key := key + ['\\'];
      }
    } else {
      assert item[from..] == [] && value + [] == value;
    }
    return if seenEqual then Some((key, value)) else None;
  }

  /** `unescape_plugin_option`. */
  method UnescapePluginOption(value: string) returns (output: string)
    ensures output == Unescape(value)
  {
    output := [];
    var escaped := false;
    var i := 0;
    ghost var from := 0;
    assert value[0..] == value;
    while i < |value|
      invariant i <= |value| && from == (if escaped then i - 1 else i) && from >= 0
      invariant escaped ==> value[i - 1] == '\\'
      invariant Unescape(value) == output + Unescape(value[from..])
    {
      var ch := value[i];
      ghost var rest := value[from..];
      if escaped {
        assert rest[1] == ch && rest[2..] == value[i + 1..];
        Assoc(output, [ch], Unescape(value[i + 1..]));
        output, escaped := output + [ch], false;
      } else if ch == '\\' {
        escaped := true;
      } else {
        assert rest[1..] == value[i + 1..];
        Assoc(output, [ch], Unescape(value[i + 1..]));
        output := output + [ch];
      }
      i := i + 1;
      from := if escaped then i - 1 else i;
    }
    if escaped {
      assert value[from..] == ['\\'];
      output := output + ['\\'];
    } else {
      assert value[from..] == [] && output + [] == output;
    }
  }

  /** One turn of the loop in `parse_plugin_options`. */
  method AddItem(values: map<string, string>, item: string) returns (r: map<string, string>)
    ensures r == values + Contribution(item)
  {
    var pair := SplitPluginOptionPair(item);
    if pair == None {
      return values;
    }
    var rawKey := UnescapePluginOption(pair.value.0);
    var key := Lower(Trim(rawKey));
    if key == [] {
      return values;
    }
    var rawValue := UnescapePluginOption(pair.value.1);
    return values[key := Trim(rawValue)];
  }

  lemma MapAssoc(a: map<string, string>, b: map<string, string>, c: map<string, string>)
    ensures a + b + c == a + (b + c)
  {
  }

  /** `parse_plugin_options`. */
  method ParsePluginOptions(options: string) returns (values: map<string, string>)
    ensures values == Parse(options)
  {
    hide Contribution;
    hide Items;
    values := map[];
    var items := SplitPluginOptions(options);
    assert items[0..] == items && map[] + Collect(items) == Collect(items);
    for i := 0 to |items|
      invariant Collect(items) == values + Collect(items[i..])
    {
      assert items[i..][1..] == items[i + 1..];
      MapAssoc(values, Contribution(items[i]), Collect(items[i + 1..]));
      values := AddItem(values, items[i]);
    }
    assert items[|items|..] == [];
  }

  // ---- Joining and splitting are inverse. ----

  /** `join(";")`. */
  function Join(items: seq<string>): string {
    if items == [] then []
    else if |items| == 1 then items[0]
    else items[0] + ([';'] + Join(items[1..]))
  }

  /** No unescaped semicolon, and no escape left open at the end. */
  predicate Whole(s: string)
    decreases |s|
  {
    s != [] ==>
      if s[0] == '\\' then |s| > 1 && Whole(s[2..]) else s[0] != ';' && Whole(s[1..])
  }

  /** No unescaped semicolon; the last character may be an escape with nothing after it. */
  predicate MayDangle(s: string)
    decreases |s|
  {
    s != [] ==>
      if s[0] == '\\' then |s| > 1 ==> MayDangle(s[2..]) else s[0] != ';' && MayDangle(s[1..])
  }

  /** Items that splitting can give: only the last may dangle. */
  predicate Separable(items: seq<string>) {
    items != [] ==>
      if |items| == 1 then MayDangle(items[0]) else Whole(items[0]) && Separable(items[1..])
  }

  lemma {:induction false} WholeMayDangle(s: string)
    requires Whole(s)
    ensures MayDangle(s)
    decreases |s|
  {
    if s != [] {
      WholeMayDangle(if s[0] == '\\' then s[2..] else s[1..]);
    }
  }

  /** A piece that opens or extends an item: one ordinary character or one escape. */
  predicate Piece(p: string) {
    if |p| == 1 then p[0] !in {'\\', ';'} else |p| == 2 && p[0] == '\\'
  }

  lemma BeforeSeparable(p: string, items: seq<string>)
    requires Piece(p) && items != [] && Separable(items)
    ensures Separable(Before(p, items))
  {
  }

  lemma BeforeJoin(p: string, items: seq<string>)
    requires items != []
    ensures Join(Before(p, items)) == p + Join(items)
  {
  }

  /** Splitting an option string gives separable items, and joining them gives the string back. */
  lemma {:induction false} JoinUndoesSplit(s: string)
    ensures Separable(Items(s)) && Join(Items(s)) == s
    decreases |s|
  {
    if s == [] || s == ['\\'] {
    } else if s[0] == ';' {
      var rest := Items(s[1..]);
      JoinUndoesSplit(s[1..]);
      assert ([[]] + rest)[1..] == rest;
      assert s == [] + ([';'] + s[1..]);
    } else {
      var n := if s[0] == '\\' then 2 else 1;
      JoinUndoesSplit(s[n..]);
      BeforeSeparable(s[..n], Items(s[n..]));
      BeforeJoin(s[..n], Items(s[n..]));
      assert s == s[..n] + s[n..];
    }
  }

  lemma {:induction false} ItemsOfOne(a: string)
    requires MayDangle(a)
    ensures Items(a) == [a]
    decreases |a|
  {
    if a != [] && a != ['\\'] {
      var n := if a[0] == '\\' then 2 else 1;
      ItemsOfOne(a[n..]);
      assert a == a[..n] + a[n..];
    }
  }

  lemma {:induction false} ItemsOfMore(a: string, b: string)
    requires Whole(a)
    ensures Items(a + ([';'] + b)) == [a] + Items(b)
    decreases |a|
  {
    var s := a + ([';'] + b);
    if a == [] {
      assert s[1..] == b;
    } else {
      var n := if a[0] == '\\' then 2 else 1;
      ItemsOfMore(a[n..], b);
      assert s[..n] == a[..n] && s[n..] == a[n..] + ([';'] + b) && a == a[..n] + a[n..];
      assert Before(a[..n], [a[n..]] + Items(b)) == [a] + Items(b);
    }
  }

  /** Splitting a joined list gives the list back, whatever separable items it holds. */
  lemma {:induction false} SplitUndoesJoin(items: seq<string>)
    requires items != [] && Separable(items)
    ensures Items(Join(items)) == items
  {
    if |items| == 1 {
      ItemsOfOne(items[0]);
    } else {
      SplitUndoesJoin(items[1..]);
      ItemsOfMore(items[0], Join(items[1..]));
    }
  }

  lemma ParseJoined(items: seq<string>)
    requires Separable(items)
    ensures Parse(Join(items)) == Collect(items)
  {
    if items == [] {
      assert Collect([[]]) == Contribution([]) + Collect([[]][1..]);
    } else {
      SplitUndoesJoin(items);
    }
  }

  // ---- Sanitising. ----

  const LAUNCHER := {"program", "path", "plugin", "plugin_program", "plugin-program", "plugin_path", "plugin-path"}

  /** The filter of `sanitize_sip003_options`. */
  predicate Keeps(item: string) {
    match PairOf(item)
    case None => true
    case Some((k, _)) => KeyOf(k) !in LAUNCHER
  }

  function Kept(items: seq<string>): seq<string> {
    if items == [] then [] else (if Keeps(items[0]) then [items[0]] else []) + Kept(items[1..])
  }

  /** `sanitize_sip003_options`. */
  function Sanitize(options: string): string {
    Join(Kept(Items(options)))
  }

  lemma {:induction false} KeptSeparable(items: seq<string>)
    requires Separable(items)
    ensures Separable(Kept(items))
  {
    hide Keeps, Whole, MayDangle;
    if items != [] {
      KeptSeparable(items[1..]);
      if |items| > 1 {
        WholeMayDangle(items[0]);
      }
      assert Keeps(items[0]) ==> Kept(items)[1..] == Kept(items[1..]);
      assert !Keeps(items[0]) ==> Kept(items) == Kept(items[1..]);
    }
  }

  lemma MinusEach(a: map<string, string>, b: map<string, string>, gone: set<string>)
    ensures (a + b) - gone == (a - gone) + (b - gone)
  {
  }

  lemma KeepsContribution(item: string)
    ensures Contribution(item) - LAUNCHER == if Keeps(item) then Contribution(item) else map[]
  {
  }

  lemma {:induction false} CollectKept(items: seq<string>)
    ensures Collect(Kept(items)) == Collect(items) - LAUNCHER
  {
    hide Contribution, Keeps;
    if items != [] {
      CollectKept(items[1..]);
      KeepsContribution(items[0]);
      MinusEach(Contribution(items[0]), Collect(items[1..]), LAUNCHER);
      if Keeps(items[0]) {
        assert Kept(items)[1..] == Kept(items[1..]);
      } else {
        assert Kept(items) == Kept(items[1..]);
        assert map[] + Collect(Kept(items[1..])) == Collect(Kept(items[1..]));
      }
    }
  }

  /** The filter as the code writes it. */
  method ItemStays(item: string) returns (r: bool)
    ensures r == Keeps(item)
  {
    var pair := SplitPluginOptionPair(item);
    if pair == None {
      return true;
    }
    var rawKey := UnescapePluginOption(pair.value.0);
    var key := Lower(Trim(rawKey));
    return !(key == "program" || key == "path" || key == "plugin" || key == "plugin_program" ||
             key == "plugin-program" || key == "plugin_path" || key == "plugin-path");
  }

  /** `sanitize_sip003_options`: the items that stay, in order, joined by semicolons. */
  method SanitizeSip003Options(options: string) returns (r: string)
    ensures r == Sanitize(options)
  {
    hide Keeps, Items;
    var items := SplitPluginOptions(options);
    var kept: seq<string> := [];
    assert items[0..] == items && [] + Kept(items) == Kept(items);
    for i := 0 to |items|
      invariant Kept(items) == kept + Kept(items[i..])
    {
      assert items[i..][1..] == items[i + 1..];
      var stays := ItemStays(items[i]);
      if stays {
        Assoc(kept, [items[i]], Kept(items[i + 1..]));
        kept := kept + [items[i]];
      } else {
        assert [] + Kept(items[i + 1..]) == Kept(items[i + 1..]);
      }
    }
    assert items[|items|..] == [] && kept + [] == kept;
    r := JoinItems(kept);
  }

  /** `join(";")`. */
  method JoinItems(items: seq<string>) returns (r: string)
    ensures r == Join(items)
  {
    r := [];
    for i := 0 to |items|
      invariant r == Join(items[..i])
    {
      assert items[..i + 1][..i] == items[..i];
      JoinNext(items[..i + 1]);
      if i > 0 {
        r := r + [';'];
      }
      r := r + items[i];
    }
    assert items[..|items|] == items;
  }

  lemma {:induction false} JoinNext(items: seq<string>)
    requires items != []
    ensures var n := |items| - 1;
            Join(items) == (if n > 0 then Join(items[..n]) + [';'] else Join(items[..n])) + items[n]
    decreases |items|
  {
    var n := |items| - 1;
    if n == 0 {
      assert items[..0] == [] && [] + items[0] == items[0];
    } else {
      JoinNext(items[1..]);
      assert items[1..][..n - 1] == items[..n][1..] && items[1..][n - 1] == items[n];
      if n == 1 {
        assert items[..n][1..] == [];
        assert items[0] + ([';'] + items[1]) == items[0] + [';'] + items[1];
      } else {
        var m := Join(items[..n][1..]);
        assert items[0] + ([';'] + (m + [';'] + items[n])) == items[0] + ([';'] + m) + [';'] + items[n];
      }
    }
  }

  /** Sanitising preserves meaning: for every option string, however malformed, the sanitised
    * string parses to the original options without the launcher keys. */
  lemma {:induction false} SanitizePreservesMeaning(options: string)
    ensures Parse(Sanitize(options)) == Parse(options) - LAUNCHER
  {
    JoinUndoesSplit(options);
    KeptSeparable(Items(options));
    ParseJoined(Kept(Items(options)));
    CollectKept(Items(options));
  }

  /** Sanitising twice is sanitising once, on the text itself. */
  lemma {:induction false} SanitizeTwice(options: string)
    ensures Sanitize(Sanitize(options)) == Sanitize(options)
  {
    JoinUndoesSplit(options);
    KeptSeparable(Items(options));
    var kept := Kept(Items(options));
    KeptTwice(Items(options));
    if kept == [] {
      assert Items([]) == [[]] && Keeps([]) && Kept([[]]) == [[]] + Kept([[]][1..]);
    } else {
      SplitUndoesJoin(kept);
    }
  }

  lemma {:induction false} KeptTwice(items: seq<string>)
    ensures Kept(Kept(items)) == Kept(items)
  {
    if items != [] {
      KeptTwice(items[1..]);
      assert Keeps(items[0]) ==> Kept(items)[1..] == Kept(items[1..]);
      assert !Keeps(items[0]) ==> Kept(items) == Kept(items[1..]);
    }
  }

  // ---- The printer. ----

  /** `replacingOccurrences` of one character. */
  function Replace(s: string, c: char, with: string): string {
    if s == [] then [] else (if s[0] == c then with else [s[0]]) + Replace(s[1..], c, with)
  }

  /** `escapePluginOption`: three replacements, the backslash first. */
  function Escape(s: string): string {
    Replace(Replace(Replace(s, '\\', "\\\\"), ';', "\\;"), '=', "\\=")
  }

  predicate Special(c: char) {
    c == '\\' || c == ';' || c == '='
  }

  /** One escape in front of each special character. */
  function EscapeChars(s: string): string {
    if s == [] then [] else (if Special(s[0]) then ['\\', s[0]] else [s[0]]) + EscapeChars(s[1..])
  }

  lemma {:induction false} ReplaceAppend(a: string, b: string, c: char, with: string)
    ensures Replace(a + b, c, with) == Replace(a, c, with) + Replace(b, c, with)
  {
    if a == [] {
      assert a + b == b;
    } else {
      assert (a + b)[1..] == a[1..] + b;
      ReplaceAppend(a[1..], b, c, with);
    }
  }

  lemma ReplaceShort(s: string, c: char, with: string)
    requires |s| <= 2
    ensures s == [] ==> Replace(s, c, with) == []
    ensures |s| == 1 ==> Replace(s, c, with) == if s[0] == c then with else s
    ensures |s| == 2 ==> Replace(s, c, with) == Replace(s[..1], c, with) + Replace(s[1..], c, with)
  {
  }

  lemma EscapeAppend(a: string, b: string)
    ensures Escape(a + b) == Escape(a) + Escape(b)
  {
    var a1, b1 := Replace(a, '\\', "\\\\"), Replace(b, '\\', "\\\\");
    ReplaceAppend(a, b, '\\', "\\\\");
    ReplaceAppend(a1, b1, ';', "\\;");
    ReplaceAppend(Replace(a1, ';', "\\;"), Replace(b1, ';', "\\;"), '=', "\\=");
  }

  lemma EscapeOne(c: char)
    ensures Escape([c]) == if Special(c) then ['\\', c] else [c]
  {
    var one := Replace([c], '\\', "\\\\");
    ReplaceShort([c], '\\', "\\\\");
    ReplaceShort(one, ';', "\\;");
    ReplaceShort(one[..1], ';', "\\;");
    ReplaceShort(one[1..], ';', "\\;");
    var two := Replace(one, ';', "\\;");
    assert |two| <= 2;
    ReplaceShort(two, '=', "\\=");
    ReplaceShort(two[..1], '=', "\\=");
    ReplaceShort(two[1..], '=', "\\=");
  }

  /** The three replacements in sequence are one escape per special character: the later ones do
    * not touch the backslashes the first one wrote. */
  lemma {:induction false} EscapeIsPerCharacter(s: string)
    ensures Escape(s) == EscapeChars(s)
  {
    if s != [] {
      assert s == [s[0]] + s[1..];
      EscapeAppend([s[0]], s[1..]);
      EscapeOne(s[0]);
      EscapeIsPerCharacter(s[1..]);
    }
  }

  /** The parser's unescaping undoes the printer's escaping, for every text. */
  lemma {:induction false} UnescapeUndoesEscape(s: string)
    ensures Unescape(EscapeChars(s)) == s
  {
    if s != [] {
      UnescapeUndoesEscape(s[1..]);
      var e := EscapeChars(s);
      assert Special(s[0]) ==> e[2..] == EscapeChars(s[1..]);
      assert !Special(s[0]) ==> e[1..] == EscapeChars(s[1..]);
    }
  }

  /** No unescaped equals sign, and no escape left open at the end. */
  predicate Bare(k: string)
    decreases |k|
  {
    k != [] ==>
      if k[0] == '\\' then |k| > 1 && Bare(k[2..]) else k[0] != '=' && Bare(k[1..])
  }

  lemma {:induction false} CutAtEquals(k: string, v: string)
    requires Bare(k)
    ensures PairOf(k + (['='] + v)) == Some((k, v))
    decreases |k|
  {
    var s := k + (['='] + v);
    if k == [] {
      assert s[1..] == v;
    } else {
      var n := if k[0] == '\\' then 2 else 1;
      CutAtEquals(k[n..], v);
      assert s[..n] == k[..n] && s[n..] == k[n..] + (['='] + v) && k == k[..n] + k[n..];
    }
  }

  lemma {:induction false} FoundPair(s: string)
    requires PairOf(s).Some?
    ensures var (k, v) := PairOf(s).value; Bare(k) && s == k + (['='] + v)
    decreases |s|
  {
    if s[0] == '=' {
      assert s == ['='] + s[1..];
    } else {
      var n := if s[0] == '\\' then 2 else 1;
      FoundPair(s[n..]);
      var (k, v) := PairOf(s[n..]).value;
      assert (s[..n] + k)[n..] == k;
      Assoc(s[..n], k, ['='] + v);
      assert s == s[..n] + s[n..];
    }
  }

  /** An item has the pair `(k, v)` if and only if it is `k`, an equals sign and `v`, and `k` holds
    * no unescaped equals sign. */
  lemma PairExactly(s: string, k: string, v: string)
    ensures PairOf(s) == Some((k, v)) <==> Bare(k) && s == k + (['='] + v)
  {
    if PairOf(s) == Some((k, v)) {
      FoundPair(s);
    }
    if Bare(k) {
      CutAtEquals(k, v);
    }
  }

  lemma {:induction false} EscapedBare(s: string)
    ensures Bare(EscapeChars(s))
  {
    if s != [] {
      EscapedBare(s[1..]);
      var n := if Special(s[0]) then 2 else 1;
      assert EscapeChars(s)[n..] == EscapeChars(s[1..]);
    }
  }

  lemma {:induction false} EscapedWhole(s: string, rest: string)
    requires Whole(rest)
    ensures Whole(EscapeChars(s) + rest)
  {
    var e := EscapeChars(s) + rest;
    if s == [] {
      assert e == rest;
    } else {
      EscapedWhole(s[1..], rest);
      var n := if Special(s[0]) then 2 else 1;
      assert e[n..] == EscapeChars(s[1..]) + rest;
    }
  }

  function Line(key: string, value: string): string {
    Escape(key) + (['='] + Escape(value))
  }

  lemma LineReadsBack(key: string, value: string)
    ensures Whole(Line(key, value))
    ensures PairOf(Line(key, value)) == Some((Escape(key), Escape(value)))
    ensures Unescape(Escape(key)) == key && Unescape(Escape(value)) == value
  {
    EscapeIsPerCharacter(key);
    EscapeIsPerCharacter(value);
    UnescapeUndoesEscape(key);
    UnescapeUndoesEscape(value);
    EscapedBare(key);
    CutAtEquals(Escape(key), Escape(value));
    EscapedWhole(value, []);
    assert EscapeChars(value) + [] == EscapeChars(value);
    assert (['='] + Escape(value))[1..] == Escape(value);
    EscapedWhole(key, ['='] + Escape(value));
  }

  /** The calls the printer makes for a plugin. */
  datatype Call =
    | Append(key: string, value: string)
    | AppendBool(name: string, enabled: bool)
    | AppendFlag(flag: string, present: bool)

  /** The options a call adds: blank values and switches that are off add none. */
  function LinesOf(c: Call): seq<string>
    decreases c.AppendBool?
  {
    match c
    case Append(key, value) => if Trim(value) == [] then [] else [Line(key, Trim(value))]
    case AppendBool(name, enabled) => if enabled then LinesOf(Append(name, "true")) else []
    case AppendFlag(flag, present) => if present then [Escape(flag)] else []
  }

  function Lines(calls: seq<Call>): seq<string> {
    if calls == [] then [] else LinesOf(calls[0]) + Lines(calls[1..])
  }

  /** The options of the calls, then the text typed in as it is, unless it is blank. */
  function Printed(calls: seq<Call>, typed: string): string {
    Join(Lines(calls) + if Trim(typed) == [] then [] else [Trim(typed)])
  }

  /** `append`, `appendBool` and `appendFlag`. */
  method AppendCall(options: seq<string>, c: Call) returns (r: seq<string>)
    ensures r == options + LinesOf(c)
    decreases c.AppendBool?
  {
    assert options + [] == options;
    match c {
      case Append(key, value) =>
        var trimmed := Trim(value);
        if trimmed == [] {
          return options;
        }
        return options + [Escape(key) + (['='] + Escape(trimmed))];
      case AppendBool(name, enabled) =>
        if !enabled {
          return options;
        }
        r := AppendCall(options, Append(name, "true"));
      case AppendFlag(flag, present) =>
        if !present {
          return options;
        }
        return options + [Escape(flag)];
    }
  }

  /** `shadowsocksPluginOptionsValue`, given the calls for the plugin and the text typed in. */
  method PluginOptionsValue(calls: seq<Call>, typed: string) returns (text: string)
    ensures text == Printed(calls, typed)
  {
    hide Trim, LinesOf, Join;
    var options: seq<string> := [];
    assert calls[0..] == calls;
    for i := 0 to |calls|
      invariant Lines(calls) == options + Lines(calls[i..])
    {
      assert calls[i..][1..] == calls[i + 1..];
      Assoc(options, LinesOf(calls[i]), Lines(calls[i + 1..]));
      options := AppendCall(options, calls[i]);
    }
    assert calls[|calls|..] == [] && options + [] == options;
    var rawOptions := Trim(typed);
    if rawOptions != [] {
      options := options + [rawOptions];
    }
    text := Join(options);
  }

  /** What a list of calls means: keys without case or surrounding blanks, blank keys and blank
    * values left out, flags without a value ignored, the last one winning. */
  function Meaning(calls: seq<Call>): map<string, string> {
    if calls == [] then map[]
    else MeaningOfOne(calls[0]) + Meaning(calls[1..])
  }

  function MeaningOfOne(c: Call): map<string, string>
    decreases c.AppendBool?
  {
    match c
    case Append(key, value) =>
      var k, v := Lower(Trim(key)), Trim(value);
      if k == [] || v == [] then map[] else map[k := v]
    case AppendBool(name, enabled) => if enabled then MeaningOfOne(Append(name, "true")) else map[]
    case AppendFlag(_, _) => map[]
  }

  lemma TrimTwice(s: string)
    ensures Trim(Trim(s)) == Trim(s)
  {
  }

  lemma LineMeans(key: string, value: string)
    requires Trim(value) != []
    ensures Contribution(Line(key, Trim(value))) == MeaningOfOne(Append(key, value))
  {
    LineReadsBack(key, Trim(value));
    TrimTwice(value);
  }

  lemma {:induction false} BareHasNoPair(s: string)
    requires Bare(s)
    ensures PairOf(s) == None
    decreases |s|
  {
    if s != [] {
      BareHasNoPair(if s[0] == '\\' then s[2..] else s[1..]);
    }
  }

  /** A flag is one whole item without a pair. */
  lemma FlagMeans(flag: string)
    ensures Whole(Escape(flag)) && Contribution(Escape(flag)) == map[]
  {
    EscapeIsPerCharacter(flag);
    EscapedWhole(flag, []);
    assert EscapeChars(flag) + [] == EscapeChars(flag);
    EscapedBare(flag);
    BareHasNoPair(EscapeChars(flag));
  }

  lemma CollectOne(item: string)
    ensures Collect([item]) == Contribution(item)
  {
    assert [item][1..] == [];
  }

  lemma {:induction false} CallMeans(c: Call)
    ensures Collect(LinesOf(c)) == MeaningOfOne(c) && forall l :: l in LinesOf(c) ==> Whole(l)
    decreases c.AppendBool?
  {
    hide Trim, Contribution, Line, Whole, Collect, Escape, Lower;
    assert Collect([]) == map[] by {
      CollectNone();
    }
    match c
    case Append(key, value) =>
      if Trim(value) != [] {
        LineMeans(key, value);
        LineReadsBack(key, Trim(value));
        CollectOne(Line(key, Trim(value)));
      }
    case AppendBool(name, enabled) =>
      CallMeans(Append(name, "true"));
    case AppendFlag(flag, present) =>
      FlagMeans(flag);
      CollectOne(Escape(flag));
  }

  lemma CollectNone()
    ensures Collect([]) == map[]
  {
  }

  lemma {:induction false} CollectAppend(a: seq<string>, b: seq<string>)
    ensures Collect(a + b) == Collect(a) + Collect(b)
  {
    hide Contribution;
    if a == [] {
      assert a + b == b && map[] + Collect(b) == Collect(b);
    } else {
      assert (a + b)[1..] == a[1..] + b;
      CollectAppend(a[1..], b);
      MapAssoc(Contribution(a[0]), Collect(a[1..]), Collect(b));
    }
  }

  lemma {:induction false} LinesMean(calls: seq<Call>)
    ensures Collect(Lines(calls)) == Meaning(calls) && forall l :: l in Lines(calls) ==> Whole(l)
  {
    hide LinesOf, MeaningOfOne, Whole, Collect;
    if calls == [] {
      CollectNone();
    } else {
      LinesMean(calls[1..]);
      CallMeans(calls[0]);
      CollectAppend(LinesOf(calls[0]), Lines(calls[1..]));
    }
  }

  /** Whole items in front of any text: the text is split as if it stood alone. */
  lemma {:induction false} ItemsInFront(lines: seq<string>, text: string)
    requires forall l :: l in lines ==> Whole(l)
    ensures Items(Join(lines + [text])) == lines + Items(text)
  {
    hide Whole, Items;
    if lines == [] {
      assert lines + [text] == [text];
      assert [] + Items(text) == Items(text);
    } else {
      assert (lines + [text])[1..] == lines[1..] + [text];
      ItemsInFront(lines[1..], text);
      ItemsOfMore(lines[0], Join(lines[1..] + [text]));
      assert lines == [lines[0]] + lines[1..];
    }
  }

  /** Printing and parsing: for every list of calls, whatever characters their keys and values hold,
    * and every text typed in, the parsed options are what the calls mean, overridden by what the
    * text alone parses to. */
  lemma PrintedOptionsParse(calls: seq<Call>, typed: string)
    ensures Parse(Printed(calls, typed)) == Meaning(calls) + Parse(Trim(typed))
  {
    hide Trim, LinesOf, MeaningOfOne, Collect, Join, Items;
    LinesMean(calls);
    var lines, text := Lines(calls), Trim(typed);
    if text == [] {
      NothingParses();
      assert lines + [] == lines && Meaning(calls) + map[] == Meaning(calls);
      AllWholeSeparable(lines);
      ParseJoined(lines);
    } else {
      ItemsInFront(lines, text);
      CollectAppend(lines, Items(text));
    }
  }

  lemma NothingParses()
    ensures Parse([]) == map[]
  {
    CollectOne([]);
  }

  lemma {:induction false} AllWholeSeparable(lines: seq<string>)
    requires forall l :: l in lines ==> Whole(l)
    ensures Separable(lines)
  {
    hide Whole, MayDangle;
    if lines != [] {
      AllWholeSeparable(lines[1..]);
      WholeMayDangle(lines[0]);
    }
  }

  type Pair = (string, string)

  function Appends(pairs: seq<Pair>): seq<Call> {
    seq(|pairs|, i requires 0 <= i < |pairs| => Append(pairs[i].0, pairs[i].1))
  }

  predicate NormalPair(p: Pair) {
    p.0 != [] && p.1 != [] && Lower(Trim(p.0)) == p.0 && Trim(p.1) == p.1
  }

  predicate Normal(pairs: seq<Pair>) {
    && (forall p :: p in pairs ==> NormalPair(p))
    && (forall i, j :: 0 <= i < j < |pairs| ==> pairs[i].0 != pairs[j].0)
  }

  lemma NormalPairMeans(p: Pair)
    requires NormalPair(p)
    ensures MeaningOfOne(Append(p.0, p.1)) == map[p.0 := p.1]
  {
  }

  lemma {:induction false} MeaningOfNormal(pairs: seq<Pair>)
    requires Normal(pairs)
    ensures forall k :: k in Meaning(Appends(pairs)) <==> exists i :: 0 <= i < |pairs| && pairs[i].0 == k
    ensures forall i :: 0 <= i < |pairs| ==> Meaning(Appends(pairs))[pairs[i].0] == pairs[i].1
  {
    hide NormalPair, MeaningOfOne;
    if pairs != [] {
      var first, rest := pairs[0], pairs[1..];
      assert Appends(pairs)[1..] == Appends(rest);
      assert forall i :: 0 <= i < |rest| ==> rest[i] == pairs[i + 1];
      MeaningOfNormal(rest);
      NormalPairMeans(first);
      var m, more := Meaning(Appends(pairs)), Meaning(Appends(rest));
      assert m == map[first.0 := first.1] + more;
      hide Meaning, Appends, Normal;
      OneInFront(pairs, more, m);
    }
  }

  lemma OneInFront(pairs: seq<Pair>, more: map<string, string>, m: map<string, string>)
    requires pairs != [] && m == map[pairs[0].0 := pairs[0].1] + more
    requires forall i :: 0 < i < |pairs| ==> pairs[i].0 != pairs[0].0
    requires forall k :: k in more <==> exists i :: 0 <= i < |pairs[1..]| && pairs[1..][i].0 == k
    requires forall i :: 0 <= i < |pairs[1..]| ==> more[pairs[1..][i].0] == pairs[1..][i].1
    ensures forall k :: k in m <==> exists i :: 0 <= i < |pairs| && pairs[i].0 == k
    ensures forall i :: 0 <= i < |pairs| ==> m[pairs[i].0] == pairs[i].1
  {
    var rest := pairs[1..];
    assert forall i :: 0 < i < |pairs| ==> pairs[i] == rest[i - 1];
    forall i | 0 <= i < |rest|
      ensures rest[i] == pairs[i + 1] && rest[i].0 in m
    {
      assert rest[i].0 in more;
    }
    forall k | k in more
      ensures exists i :: 0 <= i < |pairs| && pairs[i].0 == k
    {
      var i :| 0 <= i < |rest| && rest[i].0 == k;
      assert pairs[i + 1].0 == k;
    }
    assert forall i :: 0 < i < |pairs| ==> pairs[i].0 in more;
    assert pairs[0].0 !in more;
  }

  /** With distinct, normalised keys and non-blank, trimmed values the parser returns exactly the
    * printed pairs: every key listed and no other, each with its own value. */
  lemma {:induction false} NormalPairsReadBack(pairs: seq<Pair>)
    requires Normal(pairs)
    ensures var parsed := Parse(Printed(Appends(pairs), []));
            && (forall k :: k in parsed <==> exists i :: 0 <= i < |pairs| && pairs[i].0 == k)
            && (forall i :: 0 <= i < |pairs| ==> parsed[pairs[i].0] == pairs[i].1)
  {
    hide Parse, Printed, Appends, Meaning, NormalPair;
    PrintedOptionsParse(Appends(pairs), []);
    assert Trim([]) == [];
    NothingParses();
    assert Meaning(Appends(pairs)) + map[] == Meaning(Appends(pairs));
    MeaningOfNormal(pairs);
  }
}
