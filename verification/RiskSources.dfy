/**
 The kill-switch sources as one database column: joined with commas when stored, split, trimmed
 and stripped of blanks when read back.  Strings are sequences of bytes, as the source indexes them.
 */
module RiskSources {

  const COMMA: string := ","

  predicate OccursAt(s: string, sub: string, i: int) {
    0 <= i <= |s| - |sub| && s[i..i + |sub|] == sub
  }

  ghost predicate Contains(s: string, sub: string) {
    exists i :: OccursAt(s, sub, i)
  }

  function IndexFrom(s: string, sub: string, i: nat): (idx: int)
    ensures idx == -1 || (idx >= i && OccursAt(s, sub, idx))
    ensures forall j :: i <= j && (idx == -1 || j < idx) ==> !OccursAt(s, sub, j)
    decreases |s| - i
  {
    if i > |s| - |sub| then -1
    else if s[i..i + |sub|] == sub then i
    else IndexFrom(s, sub, i + 1)
  }

  method StringIndex(s: string, sub: string, start: nat) returns (idx: int)
    ensures idx == if start >= |s| then -1 else IndexFrom(s, sub, start)
  {
    if start >= |s| {
      return -1;
    }
    var i := start;
    while i <= |s| - |sub|
      invariant i >= start
      invariant IndexFrom(s, sub, start) == IndexFrom(s, sub, i)
    {
      if s[i..i + |sub|] == sub {
        return i;
      }
      i := i + 1;
    }
    return -1;
  }

  function PiecesFrom(s: string, sep: string, start: nat): (pieces: seq<string>)
    requires sep != "" && start <= |s|
    ensures pieces != []
    decreases |s| - start
  {
    var idx := IndexFrom(s, sep, start);
    if idx < 0 then [s[start..]] else [s[start..idx]] + PiecesFrom(s, sep, idx + |sep|)
  }

  function Split(s: string, sep: string): seq<string>
    requires sep != ""
  {
    if s == "" then [] else PiecesFrom(s, sep, 0)
  }

  // An empty separator would be found at the same position for ever; the source only passes a comma.
  method SplitStr(s: string, sep: string) returns (result: seq<string>)
    requires sep != ""
    ensures result == Split(s, sep)
    ensures result == [] <==> s == ""
  {
    hide IndexFrom;
    if s == "" {
      return [];
    }
    result := [];
    var start := 0;
    while true
      invariant start <= |s|
      invariant result + PiecesFrom(s, sep, start) == PiecesFrom(s, sep, 0)
      decreases |s| - start
    {
      var idx := StringIndex(s, sep, start);
      if idx < 0 {
        result := result + [s[start..]];
        break;
      }
      result := result + [s[start..idx]];
      start := idx + |sep|;
    }
  }

  predicate IsSpace(c: char) {
    c == ' ' || c == '\t' || c == '\n' || c == '\r'
  }

  predicate Trimmed(s: string) {
    s == "" || (!IsSpace(s[0]) && !IsSpace(s[|s| - 1]))
  }

  function TrimLeft(s: string): string {
    if s != "" && IsSpace(s[0]) then TrimLeft(s[1..]) else s
  }

  function TrimRight(s: string): string {
    if s != "" && IsSpace(s[|s| - 1]) then TrimRight(s[..|s| - 1]) else s
  }

  function Trim(s: string): string {
    TrimRight(TrimLeft(s))
  }

  method TrimSpace(s: string) returns (t: string)
    ensures t == Trim(s)
  {
    var start, end := 0, |s|;
    while start < end && IsSpace(s[start])
      invariant start <= end
      invariant TrimLeft(s) == TrimLeft(s[start..])
    {
      assert s[start..][1..] == s[start + 1..];
      start := start + 1;
    }
    ghost var left := s[start..];
    assert left == TrimLeft(s) && left == s[start..end];
    while end > start && IsSpace(s[end - 1])
      invariant start <= end <= |s|
      invariant TrimRight(left) == TrimRight(s[start..end])
    {
      var cut := s[start..end];
      assert cut[|cut| - 1] == s[end - 1];
      assert cut[..|cut| - 1] == s[start..end - 1];
      end := end - 1;
    }
    var kept := s[start..end];
    assert end > start ==> kept[|kept| - 1] == s[end - 1];
    return kept;
  }

  predicate AllSpace(s: string) {
    forall i :: 0 <= i < |s| ==> IsSpace(s[i])
  }

  lemma {:induction false} TrimLeftFacts(s: string) returns (blank: string)
    ensures var t := TrimLeft(s);
      (t == "" || !IsSpace(t[0])) && s == blank + t && AllSpace(blank)
  {
    if s != "" && IsSpace(s[0]) {
      blank := TrimLeftFacts(s[1..]);
      blank := [s[0]] + blank;
    } else {
      blank := "";
    }
  }

  lemma {:induction false} TrimRightFacts(s: string) returns (blank: string)
    ensures var t := TrimRight(s);
      (t == "" || !IsSpace(t[|t| - 1])) && s == t + blank && AllSpace(blank)
  {
    if s != "" && IsSpace(s[|s| - 1]) {
      blank := TrimRightFacts(s[..|s| - 1]);
      blank := blank + [s[|s| - 1]];
    } else {
      blank := "";
    }
  }

  // Trimming removes white space at the two ends and nothing else, and leaves none there.
  lemma TrimFacts(s: string) returns (left: string, right: string)
    ensures Trimmed(Trim(s)) && s == left + Trim(s) + right && AllSpace(left) && AllSpace(right)
    ensures forall c :: c in left + right ==> c in " \t\n\r"
    ensures Trim(s) != "" ==> Trim(s)[0] !in " \t\n\r" && Trim(s)[|Trim(s)| - 1] !in " \t\n\r"
  {
    left := TrimLeftFacts(s);
    right := TrimRightFacts(TrimLeft(s));
    var l, t := TrimLeft(s), Trim(s);
    assert t != "" ==> t[0] == l[0];
    assert s == left + t + right;
  }

  // Every piece trimmed, the blank ones left out.
  function Clean(pieces: seq<string>): seq<string> {
    if pieces == [] then []
    else
      var init := Clean(pieces[..|pieces| - 1]);
      var t := Trim(pieces[|pieces| - 1]);
      if t != "" then init + [t] else init
  }

  method SplitAndTrim(s: string, sep: string) returns (result: seq<string>)
    requires sep != ""
    ensures result == Clean(Split(s, sep))
  {
    result := [];
    var parts := SplitStr(s, sep);
    for i := 0 to |parts|
      invariant result == Clean(parts[..i])
    {
      var trimmed := TrimSpace(parts[i]);
      if trimmed != "" {
        result := result + [trimmed];
      }
      assert parts[..i + 1][..i] == parts[..i];
    }
    assert parts[..|parts|] == parts;
  }

  function Parse(s: string): seq<string> {
    if s == "" then [] else Clean(Split(s, COMMA))
  }

  method ParseSources(s: string) returns (sources: seq<string>)
    ensures sources == Parse(s)
  {
    if s == "" {
      return [];
    }
    sources := SplitAndTrim(s, COMMA);
  }

  function Join(xs: seq<string>, sep: string): string {
    if xs == [] then "" else if |xs| == 1 then xs[0] else xs[0] + sep + Join(xs[1..], sep)
  }

  lemma {:induction false} JoinSnoc(xs: seq<string>, sep: string, x: string)
    requires xs != []
    ensures Join(xs + [x], sep) == Join(xs, sep) + sep + x
  {
    if |xs| > 1 {
      assert (xs + [x])[1..] == xs[1..] + [x];
      JoinSnoc(xs[1..], sep, x);
    } else {
      assert (xs + [x])[1..] == [x];
    }
  }

  method JoinSources(sources: seq<string>) returns (result: string)
    ensures result == Join(sources, COMMA)
  {
    result := "";
    for i := 0 to |sources|
      invariant result == Join(sources[..i], COMMA)
    {
      assert sources[..i + 1] == sources[..i] + [sources[i]];
      if i > 0 {
        JoinSnoc(sources[..i], COMMA, sources[i]);
        result := result + ",";
      }
      result := result + sources[i];
    }
    assert sources[..|sources|] == sources;
  }

  // ---------- splitting ----------

  lemma JoinCons(x: string, xs: seq<string>, sep: string)
    requires xs != []
    ensures Join([x] + xs, sep) == x + sep + Join(xs, sep)
  {
    assert ([x] + xs)[1..] == xs;
  }

  lemma CutInThree(s: string, a: nat, b: nat, c: nat)
    requires a <= b <= c <= |s|
    ensures s[a..] == s[a..b] + s[b..c] + s[c..]
  {
  }

  lemma JoinOne(x: string, sep: string)
    ensures Join([x], sep) == x
  {
  }

  // Rejoining the pieces gives the text back.
  lemma {:induction false} JoinPieces(s: string, sep: string, start: nat)
    requires sep != "" && start <= |s|
    ensures Join(PiecesFrom(s, sep, start), sep) == s[start..]
    decreases |s| - start
  {
    hide Join;
    var idx := IndexFrom(s, sep, start);
    if idx >= 0 {
      JoinPieces(s, sep, idx + |sep|);
      JoinCons(s[start..idx], PiecesFrom(s, sep, idx + |sep|), sep);
      CutInThree(s, start, idx, idx + |sep|);
    } else {
      JoinOne(s[start..], sep);
    }
  }

  lemma JoinOfSplit(s: string, sep: string)
    requires sep != ""
    ensures Join(Split(s, sep), sep) == s
  {
    if s != "" {
      JoinPieces(s, sep, 0);
    }
  }

  lemma SliceOfSlice(s: string, a: nat, b: nat, i: nat, j: nat)
    requires a <= b <= |s| && i <= j <= b - a
    ensures s[a..b][i..j] == s[a + i..a + j]
  {
    var t := s[a..b];
    assert forall k :: 0 <= k < j - i ==> t[i..j][k] == t[i + k] == s[a + i + k];
  }

  // A slice that ends before the next occurrence does not contain the separator.
  lemma SliceWithout(s: string, sep: string, start: nat, end: nat)
    requires sep != "" && start <= end <= |s|
    requires var idx := IndexFrom(s, sep, start); idx == -1 || end <= idx
    ensures !Contains(s[start..end], sep)
  {
    forall i ensures !OccursAt(s[start..end], sep, i) {
      if OccursAt(s[start..end], sep, i) {
        SliceOfSlice(s, start, end, i, i + |sep|);
        assert OccursAt(s, sep, start + i);
      }
    }
  }

  lemma {:induction false} PiecesWithoutSeparator(s: string, sep: string, start: nat)
    requires sep != "" && start <= |s|
    ensures forall p :: p in PiecesFrom(s, sep, start) ==> !Contains(p, sep)
    decreases |s| - start
  {
    var idx := IndexFrom(s, sep, start);
    if idx >= 0 {
      PiecesWithoutSeparator(s, sep, idx + |sep|);
      SliceWithout(s, sep, start, idx);
    } else {
      SliceWithout(s, sep, start, |s|);
      assert s[start..|s|] == s[start..];
    }
  }

  lemma SplitWithoutSeparator(s: string, sep: string)
    requires sep != ""
    ensures forall p :: p in Split(s, sep) ==> !Contains(p, sep)
  {
    if s != "" {
      PiecesWithoutSeparator(s, sep, 0);
    }
  }

  // ---------- the column round trip ----------

  lemma ContainsComma(s: string)
    ensures Contains(s, COMMA) <==> ',' in s
  {
    if ',' in s {
      var i :| 0 <= i < |s| && s[i] == ',';
      assert s[i..i + 1] == COMMA;
      assert OccursAt(s, COMMA, i);
    }
    if Contains(s, COMMA) {
      var i :| OccursAt(s, COMMA, i);
      assert s[i] == s[i..i + 1][0];
    }
  }

  // The trimmed pieces that are not blank, in the order of the pieces: at gives their places.
  predicate KeepsNonBlank(pieces: seq<string>, kept: seq<string>, at: seq<nat>) {
    && |at| == |kept|
    && (forall j, k :: 0 <= j < k < |at| ==> at[j] < at[k])
    && (forall k :: 0 <= k < |at| ==> at[k] < |pieces| && kept[k] == Trim(pieces[at[k]]) != "")
    && (forall i :: 0 <= i < |pieces| && Trim(pieces[i]) != "" ==> i in at)
  }

  lemma {:induction false} CleanKeepsNonBlank(pieces: seq<string>) returns (at: seq<nat>)
    ensures KeepsNonBlank(pieces, Clean(pieces), at)
  {
    hide Trim;
    if pieces == [] {
      at := [];
    } else {
      var last := |pieces| - 1;
      at := CleanKeepsNonBlank(pieces[..last]);
      if Trim(pieces[last]) != "" {
        at := at + [last];
      }
    }
  }

  // Reading a column back gives exactly the non-blank pieces between its commas, trimmed and in order.
  lemma ParseKeepsNonBlank(s: string) returns (at: seq<nat>)
    ensures KeepsNonBlank(Split(s, ","), Parse(s), at)
  {
    hide Trim;
    at := CleanKeepsNonBlank(Split(s, ","));
  }

  // What survives a round trip: not blank, no comma, no surrounding white space.
  predicate Storable(x: string) {
    x != "" && ',' !in x && Trimmed(x)
  }

  // A comma-free text up to its end or the next comma is the first piece.
  lemma {:induction false} NextComma(s: string, start: nat, end: nat)
    requires start <= end <= |s|
    requires forall k :: start <= k < end ==> s[k] != ','
    requires end < |s| ==> s[end] == ','
    ensures IndexFrom(s, COMMA, start) == if end < |s| then end else -1
    decreases end - start
  {
    if start < |s| {
      assert s[start..start + 1] == [s[start]];
    }
    if start < end {
      NextComma(s, start + 1, end);
    }
  }

  lemma {:induction false} PiecesOfJoin(xs: seq<string>, s: string, start: nat)
    requires xs != [] && forall x :: x in xs ==> ',' !in x
    requires start <= |s| && s[start..] == Join(xs, COMMA)
    ensures PiecesFrom(s, COMMA, start) == xs
    decreases |xs|
  {
    var end := start + |xs[0]|;
    forall k | start <= k < end ensures s[k] != ',' {
      assert s[k] == s[start..][k - start] == xs[0][k - start];
      assert xs[0] in xs && xs[0][k - start] in xs[0];
    }
    if |xs| > 1 {
      var rest := Join(xs[1..], COMMA);
      assert s[end] == s[start..][|xs[0]|] == ',';
      assert s[end + 1..] == s[start..][|xs[0]| + 1..] == rest;
      PiecesOfJoin(xs[1..], s, end + 1);
      assert s[start..end] == s[start..][..|xs[0]|] == xs[0];
    }
    NextComma(s, start, end);
  }

  lemma {:induction false} CleanOfStorable(xs: seq<string>)
    requires forall x :: x in xs ==> Storable(x)
    ensures Clean(xs) == xs
  {
    if xs != [] {
      var last := |xs| - 1;
      CleanOfStorable(xs[..last]);
      assert Trim(xs[last]) == xs[last] by {
        assert Storable(xs[last]);
      }
      assert xs == xs[..last] + [xs[last]];
    }
  }

  lemma {:induction false} CleanIsStorable(pieces: seq<string>)
    requires forall p :: p in pieces ==> ',' !in p
    ensures forall x :: x in Clean(pieces) ==> Storable(x)
  {
    if pieces != [] {
      CleanIsStorable(pieces[..|pieces| - 1]);
      var last := pieces[|pieces| - 1];
      var left, right := TrimFacts(last);
      assert forall c :: c in Trim(last) ==> c in left + Trim(last) + right;
    }
  }

  // Whatever the column holds, what is read back is storable.
  lemma ParseIsStorable(s: string)
    ensures forall x :: x in Parse(s) ==> Storable(x)
  {
    if s != "" {
      var pieces := Split(s, COMMA);
      SplitWithoutSeparator(s, COMMA);
      forall p | p in pieces ensures ',' !in p {
        ContainsComma(p);
      }
      CleanIsStorable(pieces);
    }
  }

  // A list of sources survives being stored exactly when every source is storable.
  lemma ColumnRoundTrip(xs: seq<string>)
    ensures Parse(Join(xs, COMMA)) == xs <==> forall x :: x in xs ==> Storable(x)
  {
    ParseIsStorable(Join(xs, COMMA));
    if xs != [] && forall x :: x in xs ==> Storable(x) {
      assert xs[0] in xs;
      PiecesOfJoin(xs, Join(xs, COMMA), 0);
      CleanOfStorable(xs);
    }
  }
}
