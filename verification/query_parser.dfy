/** The SQL-subset query parser (src/QueryParser.cpp): a cursor scan over
    the trimmed query that recognises the keywords FROM, SELECT and WHERE,
    comma-separated columns and at most two `column = value` conditions.
    Exceptions are the `Err` side of a `Result`. */
module QueryParser {
  import opened Wrappers

  /** `(column, operator, value)`. */
  datatype Condition = Condition(column: string, op: string, value: string)

  /** `Query`: the first word, the table, the selected columns and the
      WHERE conditions. */
  datatype Query = Query(queryType: string, table: string, columns: seq<string>, conditions: seq<Condition>)

  /** The two `invalid_argument`s, with the text their messages quote. */
  datatype ParseError = UnexpectedInput(rest: string) | UnsupportedOperator(condition: string)

  /** The characters `trim` strips: space and tab. */
  predicate IsBlank(c: char) {
    c == ' ' || c == '\t'
  }

  /** `isspace` in the "C" locale. */
  predicate IsSpace(c: char) {
    c == ' ' || c == '\t' || c == '\n' || c == '\U{B}' || c == '\U{C}' || c == '\r'
  }

  predicate AllBlank(s: string) {
    forall i :: 0 <= i < |s| ==> IsBlank(s[i])
  }

  /** Neither starts nor ends with a space or a tab. */
  predicate Trimmed(s: string) {
    s == [] || (!IsBlank(s[0]) && !IsBlank(s[|s| - 1]))
  }

  /** `s.substr(0, |prefix|) == prefix`. */
  predicate StartsWith(s: string, prefix: string) {
    |prefix| <= |s| && s[..|prefix|] == prefix
  }

  /** `s.find(c, from)`, `None` standing for `npos`. */
  function FindChar(s: string, c: char, from: nat): (r: Option<nat>)
    ensures r.Some? ==> from <= r.value < |s| && s[r.value] == c
    ensures forall j :: from <= j < (if r.Some? then r.value else |s|) ==> s[j] != c
    decreases |s| - from
  {
    if from >= |s| then None
    else if s[from] == c then Some(from)
    else FindChar(s, c, from + 1)
  }

  /** `s.find(pat, from)` for a pattern of several characters. */
  function Find(s: string, pat: string, from: nat): (r: Option<nat>)
    ensures r.Some? ==> from <= r.value <= |s| - |pat| && StartsWith(s[r.value..], pat)
    ensures forall j :: from <= j < (if r.Some? then r.value else |s|) ==> !StartsWith(s[j..], pat)
    decreases |s| - from
  {
    if from + |pat| > |s| then None
    else if StartsWith(s[from..], pat) then Some(from)
    else Find(s, pat, from + 1)
  }

  /** `find_first_not_of(" \t")`, `|s|` standing for `npos`. */
  function FirstNonBlank(s: string): (i: nat)
    ensures i <= |s| && (i < |s| ==> !IsBlank(s[i]))
    ensures forall j :: 0 <= j < i ==> IsBlank(s[j])
  {
    if s == [] || !IsBlank(s[0]) then 0 else 1 + FirstNonBlank(s[1..])
  }

  /** One past `find_last_not_of(" \t")`; 0 when every character is
      blank. */
  function EndNonBlank(s: string): (e: nat)
    ensures e <= |s| && (e > 0 ==> !IsBlank(s[e - 1]))
    ensures forall j :: e <= j < |s| ==> IsBlank(s[j])
  {
    if s == [] || !IsBlank(s[|s| - 1]) then |s| else EndNonBlank(s[..|s| - 1])
  }

  /** `trim`: drops the leading and trailing spaces and tabs, and only
      those; "" when nothing else is left. */
  function Trim(s: string): (r: string)
    ensures Trimmed(r) && |r| <= |s|
    ensures r == [] <==> AllBlank(s)
    ensures forall c :: c in r ==> c in s
  {
    var start := FirstNonBlank(s);
    if start == |s| then "" else s[start..EndNonBlank(s)]
  }

  /** What `trim` keeps is exactly the part between the blanks: for any
      split of `s` into blanks, a trimmed middle and blanks, it returns
      the middle. */
  lemma TrimUnique(pre: string, core: string, post: string)
    requires AllBlank(pre) && Trimmed(core) && AllBlank(post)
    ensures Trim(pre + core + post) == core
  {
    var s := pre + core + post;
    assert forall j :: 0 <= j < |pre| ==> s[j] == pre[j];
    assert forall j :: 0 <= j < |core| ==> s[|pre| + j] == core[j];
    assert forall j :: 0 <= j < |post| ==> s[|pre| + |core| + j] == post[j];
    if core == [] {
      assert AllBlank(s);
    } else {
      assert FirstNonBlank(s) == |pre|;
      assert EndNonBlank(s) == |pre| + |core|;
      assert s[|pre|..|pre| + |core|] == core;
    }
  }

  /** `trim` is idempotent. */
  lemma TrimIdempotent(s: string)
    ensures Trim(Trim(s)) == Trim(s)
  {
    var r := Trim(s);
    assert [] + r + [] == r;
    TrimUnique([], r, []);
  }

  /** One `getline(ss, piece, ',')` on the non-empty unread text `t` of
      the stream: the piece up to the next ',' (or all of `t`), and the
      text after that ','. */
  function Getline(t: string): (r: (string, string))
    requires t != []
    ensures |r.1| < |t|
  {
    match FindChar(t, ',', 0)
    case None => (t, [])
    case Some(i) => (t[..i], t[i + 1..])
  }

  /** The pieces `getline` yields until the stream is exhausted. */
  function Pieces(t: string): (ps: seq<string>)
    ensures ps == [] <==> t == []
    ensures |ps| <= |t|
    decreases |t|
  {
    if t == [] then [] else [Getline(t).0] + Pieces(Getline(t).1)
  }

  /** The pieces with ',' between them. */
  function Join(ps: seq<string>): string {
    if |ps| == 0 then "" else if |ps| == 1 then ps[0] else ps[0] + "," + Join(ps[1..])
  }

  /** "," when `t` ends with a ',' after which `getline` yields no final
      empty piece. */
  function TrailingComma(t: string): string {
    if t != [] && t[|t| - 1] == ',' then "," else ""
  }

  /** Splitting loses nothing: joining the pieces with ',' gives back the
      text, but for a final ','. */
  lemma {:induction false} PiecesJoin(t: string)
    ensures Join(Pieces(t)) + TrailingComma(t) == t
    decreases |t|
  {
    if t != [] {
      match FindChar(t, ',', 0)
      case None =>
        assert t[|t| - 1] != ',';
        assert Join(Pieces(t)) == t;
      case Some(i) =>
        var first, others := t[..i], t[i + 1..];
        assert t == first + "," + others;
        if others == [] {
          assert Pieces(t) == [first] + [];
        } else {
          var rest, comma := Join(Pieces(others)), TrailingComma(t);
          calc {
            Join(Pieces(t)) + comma;
          == { assert Pieces(t) == [first] + Pieces(others) && Pieces(others) != [];
               JoinCons(first, Pieces(others)); }
            (first + "," + rest) + comma;
          == (first + ",") + (rest + comma);
          == { assert comma == TrailingComma(others); PiecesJoin(others); }
            (first + ",") + others;
          }
        }
    }
  }

  lemma JoinCons(first: string, rest: seq<string>)
    requires rest != []
    ensures Join([first] + rest) == first + "," + Join(rest)
  {
    assert ([first] + rest)[1..] == rest;
  }

  /** Joining pieces that hold no ',' and splitting again gives the
      pieces back; a final empty piece survives only behind a trailing
      ','. */
  lemma {:induction false} JoinPieces(ps: seq<string>, trailing: bool)
    requires ps != [] && forall k :: 0 <= k < |ps| ==> ',' !in ps[k]
    requires trailing || ps[|ps| - 1] != []
    ensures Pieces(Join(ps) + (if trailing then "," else "")) == ps
    decreases |ps|
  {
    assert ',' !in ps[0];
    if |ps| == 1 {
      if trailing {
        CharAfter(ps[0], ',', []);
        assert Pieces([]) == [];
      } else {
        assert Join(ps) + "" == ps[0];
        assert FindChar(ps[0], ',', 0) == None;
      }
    } else {
      assert forall k :: 0 <= k < |ps[1..]| ==> ps[1..][k] == ps[k + 1];
      JoinPieces(ps[1..], trailing);
      PieceThenOthers(ps, if trailing then "," else "");
    }
  }

  /** One more piece in front. */
  lemma PieceThenOthers(ps: seq<string>, comma: string)
    requires |ps| > 1 && ',' !in ps[0]
    requires Pieces(Join(ps[1..]) + comma) == ps[1..]
    ensures Pieces(Join(ps) + comma) == ps
  {
    var head, others := ps[0], Join(ps[1..]) + comma;
    JoinCons(head, ps[1..]);
    assert [head] + ps[1..] == ps;
    assert head + "," + (Join(ps[1..]) + comma) == head + "," + Join(ps[1..]) + comma;
    CharAfter(head, ',', others);
  }

  /** In `head + [c] + others` with no `c` in `head`, `find` stops at the
      `c` after `head`. */
  lemma CharAfter(head: string, c: char, others: string)
    requires c !in head
    ensures FindChar(head + [c] + others, c, 0) == Some(|head|)
    ensures (head + [c] + others)[..|head|] == head && (head + [c] + others)[|head| + 1..] == others
  {
    var t := head + [c] + others;
    assert forall j :: 0 <= j < |head| ==> t[j] == head[j];
    assert t[|head|] == c;
  }

  /** No piece holds a ','. */
  lemma {:induction false} PiecesHaveNoComma(t: string)
    ensures forall k :: 0 <= k < |Pieces(t)| ==> ',' !in Pieces(t)[k]
    decreases |t|
  {
    if t != [] {
      match FindChar(t, ',', 0)
      case None =>
      case Some(i) =>
        PiecesHaveNoComma(t[i + 1..]);
    }
  }

  /** A trailing ',' adds no final empty piece. */
  lemma TrailingCommaIgnored(t: string)
    requires t != [] && t[|t| - 1] != ','
    ensures Pieces(t + ",") == Pieces(t)
  {
    PiecesJoin(t);
    assert Join(Pieces(t)) + "" == Join(Pieces(t));
    PiecesHaveNoComma(t);
    JoinPieces(Pieces(t), true);
  }

  /** Each piece trimmed. */
  function TrimAll(ps: seq<string>): (cols: seq<string>)
    ensures |cols| == |ps|
  {
    seq(|ps|, k requires 0 <= k < |ps| => Trim(ps[k]))
  }

  lemma TrimAllAppend(ps: seq<string>, p: string)
    ensures TrimAll(ps + [p]) == TrimAll(ps) + [Trim(p)]
  {
  }

  /** `splitColumns`: reads pieces from a stream over the text, up to
      each ',', and trims each one. */
  method SplitColumns(columnsStr: string) returns (columns: seq<string>)
    ensures columns == TrimAll(Pieces(columnsStr))
  {
    columns := [];
    ghost var read: seq<string> := [];
    var rest := columnsStr;
    while rest != []
      invariant read + Pieces(rest) == Pieces(columnsStr)
      invariant columns == TrimAll(read)
      decreases |rest|
    {
      var column;
      column, rest := Getline(rest).0, Getline(rest).1;
      ConsAppend(read, column, Pieces(rest));
      TrimAllAppend(read, column);
      read := read + [column];
      columns := columns + [Trim(column)];
    }
    assert read + [] == read;
  }

  lemma ConsAppend(a: seq<string>, x: string, b: seq<string>)
    ensures a + ([x] + b) == (a + [x]) + b
  {
  }

  /** `parseCondition`: splits at the first '=' and trims both sides; the
      operator is always "=". */
  function ParseCondition(condition: string): (r: Result<Condition, ParseError>)
    ensures r.Err? ==> r.error == UnsupportedOperator(condition)
    ensures r.Ok? ==> r.value.op == "="
    ensures r.Ok? ==> Trimmed(r.value.column) && Trimmed(r.value.value)
  {
    match FindChar(condition, '=', 0)
    case None => Err(UnsupportedOperator(condition))
    case Some(opPos) => Ok(Condition(Trim(condition[..opPos]), "=", Trim(condition[opPos + 1..])))
  }

  /** `parseCondition` fails exactly when there is no '=', and the column
      it reads never holds one. */
  lemma ParseConditionNeedsEquals(condition: string)
    ensures ParseCondition(condition).Err? <==> '=' !in condition
    ensures ParseCondition(condition).Ok? ==> '=' !in ParseCondition(condition).value.column
  {
  }

  /** `parseConditions`: split at the first " AND " only, so one or two
      conditions; the first failing condition is the error. */
  function ParseConditions(conditionStr: string): (r: Result<seq<Condition>, ParseError>)
    ensures r.Ok? ==> 1 <= |r.value| <= 2
    ensures r.Ok? ==> forall k :: 0 <= k < |r.value| ==> r.value[k].op == "="
    ensures r.Err? ==> r.error.UnsupportedOperator?
  {
    match Find(conditionStr, " AND ", 0)
    case Some(andPos) =>
      var cond1 :- ParseCondition(conditionStr[..andPos]);
      var cond2 :- ParseCondition(conditionStr[andPos + 5..]);
      Ok([cond1, cond2])
    case None =>
      var cond :- ParseCondition(conditionStr);
      Ok([cond])
  }

  /** The first position from `pos` on that is not `isspace`, or the end. */
  function SkipSpaces(q: string, pos: nat): (p: nat)
    requires pos <= |q|
    ensures pos <= p <= |q| && (p < |q| ==> !IsSpace(q[p]))
    ensures forall j :: pos <= j < p ==> IsSpace(q[j])
    decreases |q| - pos
  {
    if pos < |q| && IsSpace(q[pos]) then SkipSpaces(q, pos + 1) else pos
  }

  /** The WHERE text up to its first ';'. */
  function BeforeSemicolon(c: string): (r: string)
    ensures r <= c && ';' !in r
    ensures |r| < |c| ==> c[|r|] == ';'
  {
    match FindChar(c, ';', 0)
    case Some(k) => c[..k]
    case None => c
  }

  lemma SuffixLength(q: string, p: nat)
    requires p <= |q|
    ensures q[p..] == q[|q| - |q[p..]|..]
  {
  }

  lemma PrefixThenChar(q: string, i: nat)
    requires i < |q|
    requires forall j :: 0 <= j < i ==> q[j] != ' '
    ensures q[..i + 1] == q[..i] + [q[i]] && ' ' !in q[..i]
  {
  }

  /** What one turn of `parse`'s loop leaves: the loop stops with a
      result (`break`, `return` or `throw`), or it goes round again from
      a later cursor with the fields set so far. */
  datatype Next = Stop(result: Result<Query, ParseError>) | Resume(pos: nat, acc: Query)

  /** A token `parse` rejects: text from a position of the query to its
      end, starting with neither a space nor one of the three keywords. */
  predicate UnexpectedToken(q: string, e: string) {
    && e != [] && |e| <= |q| && e == q[|q| - |e|..] && !IsSpace(e[0])
    && !StartsWith(e, "FROM") && !StartsWith(e, "SELECT") && !StartsWith(e, "WHERE")
  }

  /** The FROM branch, with `p` at the keyword: the table is the text
      after the spaces that follow, up to the next space or to the end;
      scanning resumes at that space. Only the table changes. */
  function AfterFrom(q: string, p: nat, acc: Query): (n: Next)
    requires p + 4 <= |q|
    ensures n.Resume? && p < n.pos <= |q| && n.acc == acc.(table := n.acc.table)
    ensures n.pos < |q| ==> q[n.pos] == ' ' && ' ' !in n.acc.table
    ensures SkipSpaces(q, p + 4) <= n.pos && n.acc.table == q[SkipSpaces(q, p + 4)..n.pos]
    ensures ' ' !in n.acc.table
  {
    var t := SkipSpaces(q, p + 4);
    match FindChar(q, ' ', t)
    case None => Resume(|q|, acc.(table := q[t..]))
    case Some(nextSpace) => Resume(nextSpace, acc.(table := q[t..nextSpace]))
  }

  /** The SELECT branch, with `p` at the keyword: without a later FROM the
      loop ends with the fields so far; otherwise the columns are the
      text up to the first FROM after the spaces, split at ',' and
      trimmed, and scanning resumes just past that FROM. Only the
      columns change. */
  function AfterSelect(q: string, p: nat, acc: Query): (n: Next)
    requires p + 6 <= |q|
    ensures n.Stop? ==> n.result == Ok(acc)
    ensures n.Stop? <==> Find(q, "FROM", SkipSpaces(q, p + 6)).None?
    ensures n.Resume? ==> p < n.pos <= |q| && n.acc == acc.(columns := n.acc.columns)
    ensures n.Resume? ==> n.pos - 4 == Find(q, "FROM", SkipSpaces(q, p + 6)).value
    ensures n.Resume? ==> n.acc.columns == TrimAll(Pieces(q[SkipSpaces(q, p + 6)..n.pos - 4]))
  {
    var t := SkipSpaces(q, p + 6);
    match Find(q, "FROM", t)
    case None => Stop(Ok(acc))
    case Some(fromPos) => Resume(fromPos + 4, acc.(columns := TrimAll(Pieces(q[t..fromPos]))))
  }

  /** The WHERE branch, with `p` at the keyword: the conditions are read
      from the text up to the first ';', and the loop ends (the cursor
      goes to the end) or the condition error is thrown. Only the
      conditions change. */
  function AfterWhere(q: string, p: nat, acc: Query): (n: Next)
    requires p + 5 <= |q|
    ensures n.Resume? ==> n.pos == |q| && n.acc == acc.(conditions := n.acc.conditions)
    ensures n.Resume? ==> 1 <= |n.acc.conditions| <= 2
    ensures n.Stop? ==> n.result.Err? && n.result.error.UnsupportedOperator?
    ensures var c := BeforeSemicolon(q[SkipSpaces(q, p + 5)..]);
      && (n.Resume? ==> ParseConditions(c) == Ok(n.acc.conditions))
      && (n.Stop? ==> ParseConditions(c) == Err(n.result.error))
  {
    var t := SkipSpaces(q, p + 5);
    match ParseConditions(BeforeSemicolon(q[t..]))
    case Ok(conditions) => Resume(|q|, acc.(conditions := conditions))
    case Err(e) => Stop(Err(e))
  }

  /** One turn of the scan loop of `parse` over the trimmed query `q`,
      from the cursor `pos`, with the fields set so far in `acc`. The
      cursor only moves forward, the type is never changed, and "Unexpected
      input" is thrown only at a token that is not a space and not a
      keyword, quoting the query from there on. */
  function ScanStep(q: string, pos: nat, acc: Query): (n: Next)
    requires pos < |q|
    ensures n.Resume? ==> pos < n.pos <= |q| && n.acc.queryType == acc.queryType
    ensures n.Stop? && n.result.Ok? ==> n.result.value == acc
    ensures n.Stop? && n.result.Err? && n.result.error.UnexpectedInput? ==> UnexpectedToken(q, n.result.error.rest)
    ensures var p := SkipSpaces(q, pos);
              p < |q| && !StartsWith(q[p..], "FROM") && !StartsWith(q[p..], "SELECT") && !StartsWith(q[p..], "WHERE")
              ==> n == Stop(Err(UnexpectedInput(q[p..])))
  {
    var p := SkipSpaces(q, pos);
    if p == |q| then Stop(Ok(acc))
    else if StartsWith(q[p..], "FROM") then AfterFrom(q, p, acc)
    else if StartsWith(q[p..], "SELECT") then AfterSelect(q, p, acc)
    else if StartsWith(q[p..], "WHERE") then AfterWhere(q, p, acc)
    else
      SuffixLength(q, p);
      Stop(Err(UnexpectedInput(q[p..])))
  }

  /** The scan loop of `parse`, turn after turn until the cursor reaches
      the end (or `npos`). */
  function Scan(q: string, pos: nat, acc: Query): (r: Result<Query, ParseError>)
    requires pos <= |q|
    ensures r.Ok? ==> r.value.queryType == acc.queryType
    decreases |q| - pos
  {
    if pos == |q| then Ok(acc)
    else match ScanStep(q, pos, acc)
      case Stop(result) => result
      case Resume(next, fields) => Scan(q, next, fields)
  }

  /** `parse`: the first word of the trimmed query is its type, and the
      scan starts after it; without a space the type stays empty and the
      scan starts at the beginning. */
  function ParseQuery(query: string): (r: Result<Query, ParseError>)
    ensures r.Ok? ==> ' ' !in r.value.queryType
    ensures r.Ok? && ' ' !in Trim(query) ==> r.value.queryType == ""
    ensures r.Ok? && ' ' in Trim(query) ==> StartsWith(Trim(query), r.value.queryType + " ")
  {
    var q := Trim(query);
    match FindChar(q, ' ', 0)
    case Some(spacePos) =>
      PrefixThenChar(q, spacePos);
      Scan(q, spacePos + 1, Query(q[..spacePos], "", [], []))
    case None => Scan(q, 0, Query("", "", [], []))
  }

  /** `parse` throws "Unexpected input" only at a token that is not a
      space and not a keyword. */
  lemma {:induction false} OnlyUnexpectedTokensRejected(q: string, pos: nat, acc: Query)
    requires pos <= |q|
    ensures Scan(q, pos, acc).Err? && Scan(q, pos, acc).error.UnexpectedInput? ==>
              UnexpectedToken(q, Scan(q, pos, acc).error.rest)
    decreases |q| - pos
  {
    if pos < |q| {
      match ScanStep(q, pos, acc)
      case Stop(_) =>
      case Resume(next, fields) =>
        OnlyUnexpectedTokensRejected(q, next, fields);
    }
  }

  /** The whitespace-skipping loop `parse` runs at each cursor move. */
  method SkipWhitespace(q: string, pos: nat) returns (p: nat)
    requires pos <= |q|
    ensures p == SkipSpaces(q, pos)
  {
    p := pos;
    while p < |q| && IsSpace(q[p])
      invariant pos <= p <= |q| && SkipSpaces(q, p) == SkipSpaces(q, pos)
      decreases |q| - p
    {
      p := p + 1;
    }
  }

  /** The FROM branch of `parse`'s loop body. */
  method TakeTable(q: string, p: nat, parsed: Query) returns (next: Next)
    requires p + 4 <= |q|
    ensures next == AfterFrom(q, p, parsed)
  {
    var t := SkipWhitespace(q, p + 4);
    var nextSpace := FindChar(q, ' ', t);
    if nextSpace.None? {
      next := Resume(|q|, parsed.(table := q[t..]));
    } else {
      next := Resume(nextSpace.value, parsed.(table := q[t..nextSpace.value]));
    }
  }

  /** The SELECT branch of `parse`'s loop body. */
  method TakeColumns(q: string, p: nat, parsed: Query) returns (next: Next)
    requires p + 6 <= |q|
    ensures next == AfterSelect(q, p, parsed)
  {
    var t := SkipWhitespace(q, p + 6);
    var fromPos := Find(q, "FROM", t);
    if fromPos.None? {
      return Stop(Ok(parsed));
    }
    var columns := SplitColumns(q[t..fromPos.value]);
    next := Resume(fromPos.value + 4, parsed.(columns := columns));
  }

  /** The WHERE branch of `parse`'s loop body. */
  method TakeConditions(q: string, p: nat, parsed: Query) returns (next: Next)
    requires p + 5 <= |q|
    ensures next == AfterWhere(q, p, parsed)
  {
    var t := SkipWhitespace(q, p + 5);
    var conditionStr := q[t..];
    var semicolonPos := FindChar(conditionStr, ';', 0);
    if semicolonPos.Some? {
      conditionStr := conditionStr[..semicolonPos.value];
    }
    var conditions := ParseConditions(conditionStr);
    if conditions.Err? {
      return Stop(Err(conditions.error));
    }
    next := Resume(|q|, parsed.(conditions := conditions.value));
  }

  /** One turn of `parse`'s loop body: skip spaces, then act on FROM,
      SELECT or WHERE, or throw. */
  method Turn(q: string, pos: nat, parsed: Query) returns (next: Next)
    requires pos < |q|
    ensures next == ScanStep(q, pos, parsed)
  {
    var p := SkipWhitespace(q, pos);
    if p >= |q| {
      next := Stop(Ok(parsed));
    } else if StartsWith(q[p..], "FROM") {
      next := TakeTable(q, p, parsed);
    } else if StartsWith(q[p..], "SELECT") {
      next := TakeColumns(q, p, parsed);
    } else if StartsWith(q[p..], "WHERE") {
      next := TakeConditions(q, p, parsed);
    } else {
      next := Stop(Err(UnexpectedInput(q[p..])));
    }
  }

  /** `parse`: trims, takes the type, then runs the cursor loop until it
      stops or the cursor passes the end. */
  method Parse(query: string) returns (r: Result<Query, ParseError>)
    ensures r == ParseQuery(query)
  {
    var parsed := Query("", "", [], []);
    var pos := 0;
    var q := Trim(query);
    var spacePos := FindChar(q, ' ', 0);
    if spacePos.Some? {
      parsed := parsed.(queryType := q[..spacePos.value]);
      pos := spacePos.value + 1;
    }
    while pos < |q|
      invariant pos <= |q| && Scan(q, pos, parsed) == ParseQuery(query)
      decreases |q| - pos
    {
      var next := Turn(q, pos, parsed);
      match next {
        case Stop(result) =>
          return result;
        case Resume(p, fields) =>
          pos, parsed := p, fields;
      }
    }
    return Ok(parsed);
  }
}
