/** What the query parser accepts and rejects: conditions and whole
    queries it reads back, the queries it rejects, and the quirks of its
    cursor scan. */
module QueryProperties {
  import opened Wrappers
  import opened QueryParser

  /** A condition `parseCondition` reads back from its text. */
  predicate WellFormed(c: Condition) {
    c.op == "=" && '=' !in c.column && Trimmed(c.column) && Trimmed(c.value)
  }

  /** `parseCondition` reads `column = value` back, whatever spaces or tabs
      surround the '='. */
  lemma ParseConditionOf(column: string, gap1: string, gap2: string, value: string)
    requires WellFormed(Condition(column, "=", value)) && AllBlank(gap1) && AllBlank(gap2)
    ensures ParseCondition(column + gap1 + "=" + gap2 + value) == Ok(Condition(column, "=", value))
  {
    var left, right := column + gap1, gap2 + value;
    assert column + gap1 + "=" + gap2 + value == left + ['='] + right;
    assert '=' !in gap1;
    CharAfter(left, '=', right);
    assert [] + column + gap1 == left;
    TrimUnique([], column, gap1);
    assert gap2 + value + [] == right;
    TrimUnique(gap2, value, []);
  }

  /** A condition written back as text, `column=value`. */
  function Render(c: Condition): string {
    c.column + "=" + c.value
  }

  /** `parseCondition` reads a rendered condition back. */
  lemma ReadsRendered(c: Condition)
    requires WellFormed(c)
    ensures ParseCondition(Render(c)) == Ok(c)
  {
    assert Render(c) == c.column + "" + "=" + "" + c.value;
    ParseConditionOf(c.column, "", "", c.value);
  }

  /** Without " AND ", `parseConditions` yields the one condition. */
  lemma OneCondition(s: string, c: Condition)
    requires Find(s, " AND ", 0) == None && ParseCondition(s) == Ok(c)
    ensures ParseConditions(s) == Ok([c])
  {
  }

  /** With " AND ", `parseConditions` yields the conditions before and
      after its first occurrence, in that order. */
  lemma TwoConditions(s: string, i: nat, c1: Condition, c2: Condition)
    requires i + 5 <= |s| && Find(s, " AND ", 0) == Some(i)
    requires ParseCondition(s[..i]) == Ok(c1) && ParseCondition(s[i + 5..]) == Ok(c2)
    ensures ParseConditions(s) == Ok([c1, c2])
  {
  }

  /** A pattern starting with a space is not found in text without one. */
  lemma NoPatternWithoutSpace(a: string, pat: string)
    requires |pat| > 0 && pat[0] == ' ' && ' ' !in a
    ensures Find(a, pat, 0) == None
  {
    forall j | 0 <= j < |a|
      ensures !StartsWith(a[j..], pat)
    {
      assert a[j..][0] == a[j];
    }
  }

  /** After text without a space, the first match of a pattern starting
      with a space is the one that follows it. */
  lemma PatternAfterSpaceless(a: string, pat: string, b: string)
    requires |pat| > 0 && pat[0] == ' ' && ' ' !in a
    ensures Find(a + pat + b, pat, 0) == Some(|a|)
    ensures (a + pat + b)[..|a|] == a && (a + pat + b)[|a| + |pat|..] == b
  {
    var s := a + pat + b;
    forall j | 0 <= j < |a|
      ensures !StartsWith(s[j..], pat)
    {
      assert s[j..][0] == s[j] == a[j];
    }
    assert s[|a|..][..|pat|] == pat;
  }

  /** `parseConditions` reads back one rendered condition that holds no
      space. */
  lemma ReadOneCondition(c: Condition)
    requires WellFormed(c) && ' ' !in Render(c)
    ensures ParseConditions(Render(c)) == Ok([c])
  {
    ReadsRendered(c);
    NoPatternWithoutSpace(Render(c), " AND ");
    OneCondition(Render(c), c);
  }

  /** `parseConditions` reads back two rendered conditions joined by
      " AND ", provided the first holds no space (a space there could start
      an earlier " AND "). */
  lemma ReadTwoConditions(c1: Condition, c2: Condition)
    requires WellFormed(c1) && WellFormed(c2) && ' ' !in Render(c1)
    ensures ParseConditions(Render(c1) + " AND " + Render(c2)) == Ok([c1, c2])
  {
    var s := Render(c1) + " AND " + Render(c2);
    PatternAfterSpaceless(Render(c1), " AND ", Render(c2));
    ReadsRendered(c1);
    ReadsRendered(c2);
    TwoConditions(s, |Render(c1)|, c1, c2);
  }

  /** `splitColumns` reads back a column list joined with ',', when no
      column holds a ',' or surrounding blanks and the last is not empty. */
  lemma ColumnsReadBack(cols: seq<string>)
    requires cols != [] && cols[|cols| - 1] != []
    requires forall k :: 0 <= k < |cols| ==> ',' !in cols[k] && Trimmed(cols[k])
    ensures TrimAll(Pieces(Join(cols))) == cols
  {
    assert Pieces(Join(cols)) == cols by {
      assert Join(cols) + "" == Join(cols);
      JoinPieces(cols, false);
    }
    TrimAllTrimmed(cols);
  }

  /** Trimming pieces that are already trimmed changes nothing. */
  lemma TrimAllTrimmed(ps: seq<string>)
    requires forall k :: 0 <= k < |ps| ==> Trimmed(ps[k])
    ensures TrimAll(ps) == ps
  {
    forall k | 0 <= k < |ps|
      ensures Trim(ps[k]) == ps[k]
    {
      TrimIdempotentOn(ps[k]);
    }
  }

  /** A trimmed text is its own trim. */
  lemma TrimIdempotentOn(s: string)
    requires Trimmed(s)
    ensures Trim(s) == s
  {
    assert [] + s + [] == s;
    TrimUnique([], s, []);
  }

  /** The parts of a suffix of `q` written as `a + b`. */
  lemma SuffixParts(q: string, pos: nat, a: string, b: string)
    requires pos <= |q| && q[pos..] == a + b
    ensures pos + |a| <= |q| && q[pos + |a|..] == b
    ensures forall k :: 0 <= k < |a| ==> q[pos + k] == a[k]
  {
    assert q[pos + |a|..] == q[pos..][|a|..];
    forall k | 0 <= k < |a|
      ensures q[pos + k] == a[k]
    {
      assert q[pos..][k] == q[pos + k];
    }
  }

  /** Text whose first character differs from a keyword's does not start
      with it. */
  lemma NotKeyword(s: string, keyword: string)
    requires s != [] && keyword != [] && s[0] != keyword[0]
    ensures !StartsWith(s, keyword)
  {
    if |keyword| <= |s| {
      assert s[..|keyword|][0] == s[0];
    }
  }

  /** `find` returns the first occurrence at or after `from`. */
  lemma FindCharAt(s: string, c: char, from: nat, i: nat)
    requires from <= i < |s| && s[i] == c
    requires forall j :: from <= j < i ==> s[j] != c
    ensures FindChar(s, c, from) == Some(i)
  {
  }

  /** At a word that a space ends, there is no space to skip, and the next
      space is the one after the word. */
  lemma WordAt(q: string, s: nat, word: string, rest: string)
    requires s <= |q| && q[s..] == word + rest
    requires word != [] && ' ' !in word && !IsSpace(word[0])
    requires rest != [] && rest[0] == ' '
    ensures s + |word| < |q| && SkipSpaces(q, s) == s
    ensures FindChar(q, ' ', s) == Some(s + |word|) && q[s..s + |word|] == word
  {
    SuffixParts(q, s, word, rest);
    assert q[s + |word|] == ' ';
    FindCharAt(q, ' ', s, s + |word|);
  }

  /** The scan after one turn is the turn's result, or the scan from
      where the turn resumes. */
  lemma ScanResumes(q: string, pos: nat, acc: Query)
    requires pos < |q|
    ensures Scan(q, pos, acc) == match ScanStep(q, pos, acc)
      case Stop(result) => result
      case Resume(next, fields) => Scan(q, next, fields)
  {
  }

  /** A query that is a word, a space and more text, with nothing to trim:
      the word is the type and the scan starts after the space. */
  lemma TypeThen(ty: string, rest: string)
    requires ty != [] && ' ' !in ty && !IsBlank(ty[0])
    requires rest != [] && !IsBlank(rest[|rest| - 1])
    ensures ParseQuery(ty + " " + rest) == Scan(ty + " " + rest, |ty| + 1, Query(ty, "", [], []))
  {
    var q := ty + " " + rest;
    assert q == ty + [' '] + rest;
    assert [] + q + [] == q;
    assert q[0] == ty[0] && q[|q| - 1] == rest[|rest| - 1];
    TrimUnique([], q, []);
    CharAfter(ty, ' ', rest);
  }

  /** The FROM branch on "FROM " followed by a word and a space. */
  lemma FromAt(q: string, p: nat, acc: Query, table: string, rest: string)
    requires p <= |q| && q[p..] == "FROM " + table + rest
    requires table != [] && ' ' !in table && !IsSpace(table[0])
    requires rest != [] && rest[0] == ' '
    ensures p + 4 <= |q| && AfterFrom(q, p, acc) == Resume(p + 5 + |table|, acc.(table := table))
  {
    assert p + 5 <= |q| && q[p + 5..] == table + rest && q[p + 4] == ' ' by {
      assert "FROM " + table + rest == "FROM " + (table + rest);
      SuffixParts(q, p, "FROM ", table + rest);
    }
    WordAt(q, p + 5, table, rest);
  }

  /** The FROM branch when no space follows the word after FROM: the
      table is the rest of the query, a final ';' included, and the scan
      ends. */
  lemma FromAtEnd(q: string, p: nat, acc: Query, table: string)
    requires p <= |q| && q[p..] == "FROM " + table
    requires table != [] && ' ' !in table && !IsSpace(table[0])
    ensures p + 4 <= |q| && AfterFrom(q, p, acc) == Resume(|q|, acc.(table := table))
  {
    assert SkipSpaces(q, p + 4) == p + 5 && q[p + 5..] == table by {
      SuffixParts(q, p, "FROM ", table);
      assert q[p + 4] == ' ' && q[p + 5] == table[0];
    }
    assert FindChar(q, ' ', p + 5) == None by {
      SuffixParts(q, p + 5, table, []);
    }
  }

  /** A FROM at the cursor takes the word after it as the table and
      resumes at the space that ends that word. */
  lemma FromStep(q: string, pos: nat, acc: Query, table: string, rest: string)
    requires pos <= |q| && q[pos..] == "FROM " + table + rest
    requires table != [] && ' ' !in table && !IsSpace(table[0])
    requires rest != [] && rest[0] == ' '
    ensures pos < |q| && ScanStep(q, pos, acc) == Resume(pos + 5 + |table|, acc.(table := table))
  {
    assert q[pos..][0] == 'F';
    assert StartsWith(q[pos..], "FROM") by {
      assert q[pos..][..4] == "FROM";
    }
    assert SkipSpaces(q, pos) == pos;
    FromAt(q, pos, acc, table, rest);
  }

  /** The FROM branch on any text: whatever follows the spaces after FROM
      splits into a table holding no space and the rest, which is empty or
      starts at the first space. The table is that text, and the scan
      resumes where the rest begins. */
  lemma FromAny(q: string, p: nat, acc: Query, table: string, tail: string)
    requires p + 4 <= |q| && q[SkipSpaces(q, p + 4)..] == table + tail
    requires ' ' !in table && (tail == [] || tail[0] == ' ')
    ensures AfterFrom(q, p, acc) == Resume(|q| - |tail|, acc.(table := table))
  {
    var t := SkipSpaces(q, p + 4);
    var e := t + |table|;
    assert forall j :: t <= j < e ==> q[j] == table[j - t] by {
      SuffixParts(q, t, table, tail);
    }
    if tail == [] {
      assert FindChar(q, ' ', t) == None;
    } else {
      assert q[e] == ' ' by {
        SuffixParts(q, t, table, tail);
      }
      FindCharAt(q, ' ', t, e);
    }
    assert q[t..e] == table;
  }

  /** The WHERE branch on any text: whatever follows the spaces after
      WHERE splits into conditions holding no ';' and the rest, which is
      empty or starts at the first ';'. The conditions are read from that
      text alone, and the scan ends or throws their error. */
  lemma WhereAny(q: string, p: nat, acc: Query, w: string, tail: string)
    requires p + 5 <= |q| && q[SkipSpaces(q, p + 5)..] == w + tail
    requires ';' !in w && (tail == [] || tail[0] == ';')
    ensures AfterWhere(q, p, acc) == match ParseConditions(w)
      case Ok(cs) => Resume(|q|, acc.(conditions := cs))
      case Err(e) => Stop(Err(e))
  {
    var c := q[SkipSpaces(q, p + 5)..];
    assert BeforeSemicolon(c) == w by {
      if tail == [] {
        assert c == w && ';' !in c;
      } else {
        assert c == w + [';'] + tail[1..];
        CharAfter(w, ';', tail[1..]);
      }
    }
  }

  /** The WHERE branch on "WHERE " followed by conditions and then the end
      of the query or its first ';' and anything after it. */
  lemma WhereAt(q: string, p: nat, acc: Query, w: string, tail: string)
    requires p <= |q| && q[p..] == "WHERE " + w + tail
    requires ';' !in w && (w == [] || !IsSpace(w[0]))
    requires tail == [] || tail[0] == ';'
    ensures p + 5 <= |q|
    ensures AfterWhere(q, p, acc) == match ParseConditions(w)
      case Ok(cs) => Resume(|q|, acc.(conditions := cs))
      case Err(e) => Stop(Err(e))
  {
    assert p + 6 <= |q| && q[p + 6..] == w + tail && q[p + 5] == ' ' by {
      assert "WHERE " + w + tail == "WHERE " + (w + tail);
      SuffixParts(q, p, "WHERE ", w + tail);
    }
    assert SkipSpaces(q, p + 5) == p + 6 by {
      if p + 6 < |q| {
        assert q[p + 6] == (w + tail)[0];
      }
    }
    WhereAny(q, p, acc, w, tail);
  }

  /** A WHERE after one space at the cursor reads the conditions up to the
      first ';' or the end, and ends the scan or throws their error. */
  lemma WhereStep(q: string, pos: nat, acc: Query, w: string, tail: string)
    requires pos <= |q| && q[pos..] == " WHERE " + w + tail
    requires ';' !in w && (w == [] || !IsSpace(w[0]))
    requires tail == [] || tail[0] == ';'
    ensures pos < |q|
    ensures ScanStep(q, pos, acc) == match ParseConditions(w)
      case Ok(cs) => Resume(|q|, acc.(conditions := cs))
      case Err(e) => Stop(Err(e))
  {
    assert " WHERE " + w + tail == " " + ("WHERE " + w + tail);
    SuffixParts(q, pos, " ", "WHERE " + w + tail);
    assert q[pos] == ' ';
    assert q[pos + 1..][0] == 'W';
    assert StartsWith(q[pos + 1..], "WHERE") by {
      assert q[pos + 1..][..5] == "WHERE";
    }
    NotKeyword(q[pos + 1..], "FROM");
    NotKeyword(q[pos + 1..], "SELECT");
    assert SkipSpaces(q, pos) == pos + 1;
    WhereAt(q, pos + 1, acc, w, tail);
  }

  /** From " WHERE conditions" at the cursor, up to the end or the first
      ';', the scan sets the conditions and ends, or throws their error. */
  lemma ScanWhere(q: string, pos: nat, acc: Query, w: string, tail: string)
    requires pos <= |q| && q[pos..] == " WHERE " + w + tail
    requires ';' !in w && (w == [] || !IsSpace(w[0]))
    requires tail == [] || tail[0] == ';'
    ensures Scan(q, pos, acc) == match ParseConditions(w)
      case Ok(cs) => Ok(Query(acc.queryType, acc.table, acc.columns, cs))
      case Err(e) => Err(e)
  {
    WhereStep(q, pos, acc, w, tail);
    ScanResumes(q, pos, acc);
  }

  /** From "FROM table WHERE conditions" at the cursor, up to the end or
      the first ';', the scan sets the table and the conditions and ends,
      or throws the conditions' error. */
  lemma ScanFromWhere(q: string, pos: nat, acc: Query, table: string, w: string, tail: string)
    requires pos <= |q| && q[pos..] == "FROM " + table + (" WHERE " + w + tail)
    requires table != [] && ' ' !in table && !IsSpace(table[0])
    requires ';' !in w && (w == [] || !IsSpace(w[0]))
    requires tail == [] || tail[0] == ';'
    ensures pos < |q|
    ensures Scan(q, pos, acc) == match ParseConditions(w)
      case Ok(cs) => Ok(Query(acc.queryType, table, acc.columns, cs))
      case Err(e) => Err(e)
  {
    var where := " WHERE " + w + tail;
    var p := pos + 5 + |table|;
    assert pos < |q| && ScanStep(q, pos, acc) == Resume(p, acc.(table := table)) by {
      FromStep(q, pos, acc, table, where);
    }
    assert p <= |q| && q[p..] == where by {
      SuffixParts(q, pos, "FROM " + table, where);
    }
    ScanWhere(q, p, acc.(table := table), w, tail);
    ScanAfterTurn(q, pos, acc, p, acc.(table := table));
  }

  /** From "FROM table" at the cursor, the table holding no space, the scan
      sets the table and ends. */
  lemma ScanFromOnly(q: string, pos: nat, acc: Query, table: string)
    requires pos <= |q| && q[pos..] == "FROM " + table
    requires table != [] && ' ' !in table && !IsSpace(table[0])
    ensures Scan(q, pos, acc) == Ok(acc.(table := table))
  {
    assert pos < |q| && ScanStep(q, pos, acc) == AfterFrom(q, pos, acc) by {
      assert q[pos..][0] == 'F';
      assert StartsWith(q[pos..], "FROM") by {
        assert q[pos..][..4] == "FROM";
      }
    }
    FromAtEnd(q, pos, acc, table);
    ScanResumes(q, pos, acc);
  }

  /** `parse` rejects a query whose type is followed by a token that is
      not a keyword, quoting the query from that token on. */
  lemma RejectsNonKeyword(ty: string, rest: string)
    requires ty != [] && ' ' !in ty && !IsBlank(ty[0])
    requires rest != [] && !IsBlank(rest[|rest| - 1]) && !IsSpace(rest[0])
    requires !StartsWith(rest, "FROM") && !StartsWith(rest, "SELECT") && !StartsWith(rest, "WHERE")
    ensures ParseQuery(ty + " " + rest) == Err(UnexpectedInput(rest))
  {
    var q := ty + " " + rest;
    TypeThen(ty, rest);
    SuffixParts(q, 0, ty + " ", rest);
    assert q[|ty| + 1] == rest[0];
  }

  /** The query of the program's own demonstration,
      "SELECT id, name FROM users WHERE age = 25;", is rejected: its type
      is SELECT, and the column list that follows is not a keyword. */
  lemma DemoRejected()
    ensures ParseQuery("SELECT " + "id, name FROM users WHERE age = 25;")
         == Err(UnexpectedInput("id, name FROM users WHERE age = 25;"))
  {
    RejectsNonKeyword("SELECT", "id, name FROM users WHERE age = 25;");
    assert "SELECT" + " " == "SELECT ";
  }

  /** A query of the form "type FROM table WHERE conditions", ended by
      its first ';' and anything after it or by its end, has that type
      and table, no columns, and the conditions `parseConditions` reads;
      or it throws their error. What follows the ';' is dropped. */
  lemma FromWhere(ty: string, table: string, w: string, tail: string)
    requires ty != [] && ' ' !in ty && !IsBlank(ty[0])
    requires table != [] && ' ' !in table && !IsSpace(table[0])
    requires ';' !in w && (w == [] || !IsSpace(w[0]))
    requires tail == [] || tail[0] == ';'
    requires w + tail != [] && !IsBlank((w + tail)[|w + tail| - 1])
    ensures ParseQuery(ty + " FROM " + table + " WHERE " + w + tail) == match ParseConditions(w)
      case Ok(cs) => Ok(Query(ty, table, [], cs))
      case Err(e) => Err(e)
  {
    var rest := "FROM " + table + (" WHERE " + w + tail);
    var q := ty + " " + rest;
    assert q == ty + " FROM " + table + " WHERE " + w + tail;
    assert rest[|rest| - 1] == (w + tail)[|w + tail| - 1];
    assert q[|ty| + 1..] == rest by {
      SuffixParts(q, 0, ty + " ", rest);
    }
    TypeThen(ty, rest);
    ScanFromWhere(q, |ty| + 1, Query(ty, "", [], []), table, w, tail);
  }

  /** A query of the form "type FROM table", the table holding no space,
      has that type and table: a ';' at the end stays part of the table. */
  lemma FromOnly(ty: string, table: string)
    requires ty != [] && ' ' !in ty && !IsBlank(ty[0])
    requires table != [] && ' ' !in table && !IsSpace(table[0]) && !IsBlank(table[|table| - 1])
    ensures ParseQuery(ty + " FROM " + table) == Ok(Query(ty, table, [], []))
  {
    var rest := "FROM " + table;
    var q := ty + " " + rest;
    assert q == ty + " FROM " + table;
    assert rest[|rest| - 1] == table[|table| - 1];
    TypeThen(ty, rest);
    assert q[|ty| + 1..] == rest by {
      SuffixParts(q, 0, ty + " ", rest);
    }
    ScanFromOnly(q, |ty| + 1, Query(ty, "", [], []), table);
  }

  /** For example, the ';' that ends "SELECT FROM users;" becomes part of
      the table name. */
  lemma SemicolonInTable()
    ensures ParseQuery("SELECT" + " FROM " + "users;") == Ok(Query("SELECT", "users;", [], []))
  {
    FromOnly("SELECT", "users;");
  }

  /** A query rendered from a type, a table and one well-formed condition
      is parsed back into them. */
  lemma OneConditionQuery(ty: string, table: string, c: Condition)
    requires ty != [] && ' ' !in ty && !IsBlank(ty[0])
    requires table != [] && ' ' !in table && !IsSpace(table[0])
    requires WellFormed(c) && ' ' !in Render(c) && ';' !in Render(c) && !IsSpace(Render(c)[0])
    ensures ParseQuery(ty + " FROM " + table + " WHERE " + Render(c) + ";") == Ok(Query(ty, table, [], [c]))
  {
    ReadOneCondition(c);
    FromWhere(ty, table, Render(c), ";");
  }

  /** The same query without the ';', or with text after it, parses to
      the same fields: the conditions end at the query's end or at its
      first ';', and the rest is dropped. */
  lemma OneConditionQueryTail(ty: string, table: string, c: Condition, tail: string)
    requires ty != [] && ' ' !in ty && !IsBlank(ty[0])
    requires table != [] && ' ' !in table && !IsSpace(table[0])
    requires WellFormed(c) && ' ' !in Render(c) && ';' !in Render(c) && !IsSpace(Render(c)[0])
    requires tail == [] || (tail[0] == ';' && !IsBlank(tail[|tail| - 1]))
    ensures ParseQuery(ty + " FROM " + table + " WHERE " + Render(c) + tail) == Ok(Query(ty, table, [], [c]))
  {
    var r := Render(c);
    assert !IsBlank((r + tail)[|r + tail| - 1]) by {
      if tail == [] {
        assert r + tail == r && r[|r| - 1] == (c.column + "=" + c.value)[|r| - 1];
        if c.value != [] {
          assert r[|r| - 1] == c.value[|c.value| - 1];
        }
      } else {
        assert (r + tail)[|r + tail| - 1] == tail[|tail| - 1];
      }
    }
    ReadOneCondition(c);
    FromWhere(ty, table, r, tail);
  }

  /** For example, "t FROM a WHERE x=1" needs no ';'. */
  lemma ConditionsEndAtEnd()
    ensures ParseQuery("t" + " FROM " + "a" + " WHERE " + "x=1" + "") == Ok(Query("t", "a", [], [Condition("x", "=", "1")]))
  {
    var c := Condition("x", "=", "1");
    assert Render(c) == "x=1";
    OneConditionQueryTail("t", "a", c, "");
  }

  /** And in "t FROM a WHERE x=1; junk" the text after the ';' is dropped. */
  lemma ConditionsEndAtSemicolon()
    ensures ParseQuery("t" + " FROM " + "a" + " WHERE " + "x=1" + "; junk") == Ok(Query("t", "a", [], [Condition("x", "=", "1")]))
  {
    var c := Condition("x", "=", "1");
    assert Render(c) == "x=1";
    OneConditionQueryTail("t", "a", c, "; junk");
  }

  /** A query rendered from a type, a table and two well-formed conditions
      joined by " AND " is parsed back into them, provided the first
      condition holds no space. */
  lemma TwoConditionQuery(ty: string, table: string, c1: Condition, c2: Condition)
    requires ty != [] && ' ' !in ty && !IsBlank(ty[0])
    requires table != [] && ' ' !in table && !IsSpace(table[0])
    requires WellFormed(c1) && ' ' !in Render(c1) && ';' !in Render(c1) && !IsSpace(Render(c1)[0])
    requires WellFormed(c2) && ';' !in Render(c2)
    ensures ParseQuery(ty + " FROM " + table + " WHERE " + (Render(c1) + " AND " + Render(c2)) + ";")
         == Ok(Query(ty, table, [], [c1, c2]))
  {
    var w := Render(c1) + " AND " + Render(c2);
    assert ';' !in w && w[0] == Render(c1)[0];
    ReadTwoConditions(c1, c2);
    FromWhere(ty, table, w, ";");
  }

  /** `find` returns the first occurrence of the pattern at or after
      `from`. */
  lemma {:induction false} FindAt(s: string, pat: string, from: nat, i: nat)
    requires from <= i <= |s| && StartsWith(s[i..], pat)
    requires forall j :: from <= j < i ==> !StartsWith(s[j..], pat)
    ensures Find(s, pat, from) == Some(i)
    decreases i - from
  {
    if from < i {
      FindAt(s, pat, from + 1, i);
    }
  }

  /** Where the column text starts after "SELECT ". */
  lemma SelectPrefix(q: string, p: nat, a: string, rest: string)
    requires p <= |q| && q[p..] == "SELECT " + a + " FROM" + rest
    requires a != [] && !IsSpace(a[0])
    ensures p + 7 <= |q| && q[p + 7..] == a + " FROM" + rest && SkipSpaces(q, p + 6) == p + 7
  {
    assert "SELECT " + a + " FROM" + rest == "SELECT " + (a + " FROM" + rest);
    SuffixParts(q, p, "SELECT ", a + " FROM" + rest);
    assert q[p + 6] == "SELECT "[6] && q[p + 7] == q[p + 7..][0];
  }

  /** The SELECT branch once the start of the columns and the FROM that
      ends them are known. */
  lemma AfterSelectFound(q: string, p: nat, acc: Query, t: nat, f: nat, c: string)
    requires p + 6 <= |q| && SkipSpaces(q, p + 6) == t && Find(q, "FROM", t) == Some(f)
    requires t <= f <= |q| && q[t..f] == c
    ensures AfterSelect(q, p, acc) == Resume(f + 4, acc.(columns := TrimAll(Pieces(c))))
  {
  }

  /** The SELECT branch on "SELECT " followed by a column text without
      FROM, a space and FROM: the columns are that text's pieces, trimmed,
      and scanning resumes just past FROM. */
  lemma SelectAt(q: string, p: nat, acc: Query, a: string, rest: string)
    requires p <= |q| && q[p..] == "SELECT " + a + " FROM" + rest
    requires a != [] && !IsSpace(a[0]) && Find(a, "FROM", 0).None?
    ensures p + 12 + |a| <= |q|
    ensures AfterSelect(q, p, acc) == Resume(p + 12 + |a|, acc.(columns := TrimAll(Pieces(a + " "))))
  {
    SelectPrefix(q, p, a, rest);
    SelectColumns(q, p, acc, a, rest);
  }

  /** The SELECT branch from the start of the column text. */
  lemma SelectColumns(q: string, p: nat, acc: Query, a: string, rest: string)
    requires p + 7 <= |q| && q[p + 7..] == a + " FROM" + rest && SkipSpaces(q, p + 6) == p + 7
    requires Find(a, "FROM", 0).None?
    ensures p + 12 + |a| <= |q|
    ensures AfterSelect(q, p, acc) == Resume(p + 12 + |a|, acc.(columns := TrimAll(Pieces(a + " "))))
  {
    var f := p + 8 + |a|;
    assert f <= |q| && Find(q, "FROM", p + 7) == Some(f) && q[p + 7..f] == a + " " by {
      FromAfterColumns(q, p + 7, a, rest);
    }
    AfterSelectFound(q, p, acc, p + 7, f, a + " ");
  }

  /** After a text without FROM and a space, `find` stops at the FROM that
      follows. */
  lemma FromAfterColumns(q: string, o: nat, a: string, rest: string)
    requires o <= |q| && q[o..] == a + " FROM" + rest && Find(a, "FROM", 0).None?
    ensures o + |a| + 1 <= |q| && Find(q, "FROM", o) == Some(o + |a| + 1)
    ensures q[o..o + |a| + 1] == a + " "
  {
    var f := o + |a| + 1;
    assert f <= |q| && q[o..f] == a + " " && q[o + |a|] == ' ' && StartsWith(q[f..], "FROM") &&
      forall k :: 0 <= k < |a| ==> q[o + k] == a[k] by {
      ColumnsSpaceFrom(q, o, a, rest);
    }
    PatternAfterSpaceAt(q, o, a, "FROM");
  }

  /** Where a text, a space and FROM sit in `q`. */
  lemma ColumnsSpaceFrom(q: string, o: nat, a: string, rest: string)
    requires o <= |q| && q[o..] == a + " FROM" + rest
    ensures o + |a| + 5 <= |q| && q[o..o + |a| + 1] == a + " "
    ensures StartsWith(q[o + |a| + 1..], "FROM")
    ensures q[o + |a|] == ' '
    ensures forall k :: 0 <= k < |a| ==> q[o + k] == a[k]
  {
    assert a + " FROM" + rest == (a + " ") + ("FROM" + rest);
    SuffixParts(q, o, a + " ", "FROM" + rest);
    assert q[o + |a| + 1..][..4] == ("FROM" + rest)[..4];
  }

  /** Where a text without the pattern lies at `o` in `q`, and a space and
      then the pattern follow it, `find` from `o` stops at that pattern
      (the pattern holding no space). */
  lemma PatternAfterSpaceAt(q: string, o: nat, a: string, pat: string)
    requires o + |a| < |q| && q[o + |a|] == ' ' && StartsWith(q[o + |a| + 1..], pat)
    requires forall k :: 0 <= k < |a| ==> q[o + k] == a[k]
    requires ' ' !in pat && Find(a, pat, 0).None?
    ensures Find(q, pat, o) == Some(o + |a| + 1)
  {
    forall j | o <= j <= o + |a|
      ensures !StartsWith(q[j..], pat)
    {
      NoPatternBeforeSpace(q, o, a, pat, j);
    }
    FindAt(q, pat, o, o + |a| + 1);
  }

  /** No match of the pattern starts inside `a` or at the space after it. */
  lemma NoPatternBeforeSpace(q: string, o: nat, a: string, pat: string, j: nat)
    requires o + |a| < |q| && q[o + |a|] == ' '
    requires forall k :: 0 <= k < |a| ==> q[o + k] == a[k]
    requires ' ' !in pat && Find(a, pat, 0).None?
    requires o <= j <= o + |a|
    ensures !StartsWith(q[j..], pat)
  {
    var d := j - o;
    if d + |pat| <= |a| {
      assert !StartsWith(a[d..], pat);
      var m :| 0 <= m < |pat| && a[d..][m] != pat[m];
      assert q[j..][m] == q[j + m] == a[d + m];
    } else if j + |pat| <= |q| {
      assert q[j..][o + |a| - j] == ' ';
    }
  }

  /** A SELECT at the cursor reads the columns and resumes past FROM. */
  lemma SelectStep(q: string, pos: nat, acc: Query, a: string, rest: string)
    requires pos <= |q| && q[pos..] == "SELECT " + a + " FROM" + rest
    requires a != [] && !IsSpace(a[0]) && Find(a, "FROM", 0).None?
    ensures pos + 12 + |a| <= |q|
    ensures ScanStep(q, pos, acc) == Resume(pos + 12 + |a|, acc.(columns := TrimAll(Pieces(a + " "))))
  {
    SelectHead(q, pos, a, rest);
    ScanStepSelect(q, pos, acc);
    SelectAt(q, pos, acc, a, rest);
  }

  /** "SELECT " at the cursor is a SELECT token and not a FROM. */
  lemma SelectHead(q: string, pos: nat, a: string, rest: string)
    requires pos <= |q| && q[pos..] == "SELECT " + a + " FROM" + rest
    ensures pos < |q| && SkipSpaces(q, pos) == pos
    ensures StartsWith(q[pos..], "SELECT") && !StartsWith(q[pos..], "FROM")
  {
    assert q[pos..][0] == 'S';
    assert q[pos..][..6] == "SELECT";
    NotKeyword(q[pos..], "FROM");
  }

  /** A turn at a SELECT that is not also a FROM is the SELECT branch. */
  lemma ScanStepSelect(q: string, pos: nat, acc: Query)
    requires pos < |q| && SkipSpaces(q, pos) == pos
    requires StartsWith(q[pos..], "SELECT") && !StartsWith(q[pos..], "FROM")
    ensures pos + 6 <= |q| && ScanStep(q, pos, acc) == AfterSelect(q, pos, acc)
  {
  }

  /** Joining pieces and appending to the last piece is appending to the
      joined text. */
  lemma {:induction false} JoinLast(ps: seq<string>, x: string)
    requires ps != []
    ensures Join(ps[..|ps| - 1] + [ps[|ps| - 1] + x]) == Join(ps) + x
    decreases |ps|
  {
    var ps' := ps[..|ps| - 1] + [ps[|ps| - 1] + x];
    if |ps| > 1 {
      assert ps'[1..] == ps[1..][..|ps[1..]| - 1] + [ps[1..][|ps[1..]| - 1] + x];
      JoinLast(ps[1..], x);
      assert Join(ps') == ps[0] + "," + (Join(ps[1..]) + x);
    }
  }

  /** The column text before " FROM" is read back into the columns it
      joins, the space before FROM trimmed away. */
  lemma ColumnsBeforeFrom(cols: seq<string>)
    requires cols != [] && cols[|cols| - 1] != []
    requires forall k :: 0 <= k < |cols| ==> ',' !in cols[k] && Trimmed(cols[k])
    ensures TrimAll(Pieces(Join(cols) + " ")) == cols
  {
    SpacedPieces(cols);
    TrimSpacedLast(cols);
  }

  /** Trimming the columns, the last with a space behind it, gives the
      columns. */
  lemma TrimSpacedLast(cols: seq<string>)
    requires cols != [] && forall k :: 0 <= k < |cols| ==> Trimmed(cols[k])
    ensures TrimAll(cols[..|cols| - 1] + [cols[|cols| - 1] + " "]) == cols
  {
    var n := |cols|;
    calc {
      TrimAll(cols[..n - 1] + [cols[n - 1] + " "]);
    == { TrimAllAppend(cols[..n - 1], cols[n - 1] + " "); }
      TrimAll(cols[..n - 1]) + [Trim(cols[n - 1] + " ")];
    == { TrimAllTrimmed(cols[..n - 1]); TrimSpaced(cols[n - 1]); }
      cols[..n - 1] + [cols[n - 1]];
    == { LastSplit(cols); }
      cols;
    }
  }

  /** The pieces of the joined columns with a space behind them: the
      space stays on the last piece. */
  lemma SpacedPieces(cols: seq<string>)
    requires cols != [] && cols[|cols| - 1] != []
    requires forall k :: 0 <= k < |cols| ==> ',' !in cols[k]
    ensures Pieces(Join(cols) + " ") == cols[..|cols| - 1] + [cols[|cols| - 1] + " "]
  {
    var ps := cols[..|cols| - 1] + [cols[|cols| - 1] + " "];
    SpacedNoComma(cols);
    JoinPieces(ps, false);
    JoinLast(cols, " ");
    assert Join(ps) + "" == Join(ps);
  }

  /** A space on the last column puts no ',' in any of them. */
  lemma SpacedNoComma(cols: seq<string>)
    requires cols != [] && forall k :: 0 <= k < |cols| ==> ',' !in cols[k]
    ensures var ps := cols[..|cols| - 1] + [cols[|cols| - 1] + " "];
      ps != [] && ps[|ps| - 1] != [] && forall k :: 0 <= k < |ps| ==> ',' !in ps[k]
  {
    var n := |cols|;
    var ps := cols[..n - 1] + [cols[n - 1] + " "];
    assert forall k :: 0 <= k < n - 1 ==> ps[k] == cols[k];
    assert ps[n - 1] == cols[n - 1] + [' '];
  }

  /** A trimmed text with a space behind it trims back to itself. */
  lemma TrimSpaced(s: string)
    requires Trimmed(s)
    ensures Trim(s + " ") == s
  {
    assert [] + s + " " == s + " ";
    TrimUnique([], s, " ");
  }

  /** A sequence is its front followed by its last element. */
  lemma LastSplit(cols: seq<string>)
    requires cols != []
    ensures cols[..|cols| - 1] + [cols[|cols| - 1]] == cols
  {
    assert forall k :: 0 <= k < |cols| ==> (cols[..|cols| - 1] + [cols[|cols| - 1]])[k] == cols[k];
  }

  /** From "SELECT columns FROM" at the cursor, the scan sets the columns
      and ends. */
  lemma ScanSelectOnly(q: string, pos: nat, acc: Query, a: string)
    requires pos <= |q| && q[pos..] == "SELECT " + a + " FROM"
    requires a != [] && !IsSpace(a[0]) && Find(a, "FROM", 0).None?
    ensures Scan(q, pos, acc) == Ok(acc.(columns := TrimAll(Pieces(a + " "))))
  {
    assert q[pos..] == "SELECT " + a + " FROM" + [];
    assert pos < |q| && |q| - pos == 12 + |a|;
    SelectStep(q, pos, acc, a, []);
    ScanResumes(q, pos, acc);
  }

  /** A query of the form "type SELECT columns FROM" has that type and the
      columns `splitColumns` reads from the text before FROM; no table. */
  lemma SelectOnly(ty: string, a: string)
    requires ty != [] && ' ' !in ty && !IsBlank(ty[0])
    requires a != [] && !IsSpace(a[0]) && Find(a, "FROM", 0).None?
    ensures ParseQuery(ty + " SELECT " + a + " FROM") == Ok(Query(ty, "", TrimAll(Pieces(a + " ")), []))
  {
    var rest := "SELECT " + a + " FROM";
    var q := ty + " " + rest;
    assert q == ty + " SELECT " + a + " FROM";
    assert rest[|rest| - 1] == 'M';
    TypeThen(ty, rest);
    assert q[|ty| + 1..] == rest by {
      SuffixParts(q, 0, ty + " ", rest);
    }
    ScanSelectOnly(q, |ty| + 1, Query(ty, "", [], []), a);
  }

  /** So "type SELECT columns FROM" reads back the columns joined with
      ','. */
  lemma ColumnsQuery(ty: string, cols: seq<string>)
    requires ty != [] && ' ' !in ty && !IsBlank(ty[0])
    requires cols != [] && cols[0] != [] && !IsSpace(cols[0][0]) && cols[|cols| - 1] != []
    requires forall k :: 0 <= k < |cols| ==> ',' !in cols[k] && Trimmed(cols[k])
    requires Find(Join(cols), "FROM", 0).None?
    ensures ParseQuery(ty + " SELECT " + Join(cols) + " FROM") == Ok(Query(ty, "", cols, []))
  {
    assert Join(cols)[0] == cols[0][0];
    SelectOnly(ty, Join(cols));
    ColumnsBeforeFrom(cols);
  }

  /** From "SELECT columns FROM table" at the cursor, the scan resumes at
      the space before the table and then rejects the table, which is not
      a keyword. */
  lemma ScanSelectThenTable(q: string, pos: nat, acc: Query, a: string, table: string)
    requires pos <= |q| && q[pos..] == "SELECT " + a + " FROM" + (" " + table)
    requires a != [] && !IsSpace(a[0]) && Find(a, "FROM", 0).None?
    requires table != [] && !IsSpace(table[0])
    requires !StartsWith(table, "FROM") && !StartsWith(table, "SELECT") && !StartsWith(table, "WHERE")
    ensures Scan(q, pos, acc) == Err(UnexpectedInput(table))
  {
    SelectThenToken(q, pos, acc, a, table);
    RejectedAfterTurn(q, pos, acc, pos + 12 + |a|, acc.(columns := TrimAll(Pieces(a + " "))), table);
  }

  /** A turn at "SELECT columns FROM", a space and a token resumes at that
      space with the columns set. */
  lemma SelectThenToken(q: string, pos: nat, acc: Query, a: string, token: string)
    requires pos <= |q| && q[pos..] == "SELECT " + a + " FROM" + (" " + token)
    requires a != [] && !IsSpace(a[0]) && Find(a, "FROM", 0).None?
    requires token != [] && !IsSpace(token[0])
    ensures var next := pos + 12 + |a|;
      && pos < next < |q|
      && ScanStep(q, pos, acc) == Resume(next, acc.(columns := TrimAll(Pieces(a + " "))))
      && SkipSpaces(q, next) == next + 1 && q[next + 1..] == token
  {
    SelectStep(q, pos, acc, a, " " + token);
    TableAfterFrom(q, pos, a, token);
  }

  /** A turn that resumes where a space and then a token that is not a
      keyword follow: the scan rejects that token. */
  lemma RejectedAfterTurn(q: string, pos: nat, acc: Query, next: nat, acc': Query, token: string)
    requires pos < next < |q| && ScanStep(q, pos, acc) == Resume(next, acc')
    requires SkipSpaces(q, next) == next + 1 && q[next + 1..] == token && token != []
    requires !StartsWith(token, "FROM") && !StartsWith(token, "SELECT") && !StartsWith(token, "WHERE")
    ensures Scan(q, pos, acc) == Err(UnexpectedInput(token))
  {
    ScanResumes(q, pos, acc);
    ScanResumes(q, next, acc');
  }

  /** Past the FROM that ends the columns come a space and the table. */
  lemma TableAfterFrom(q: string, pos: nat, a: string, table: string)
    requires pos <= |q| && q[pos..] == "SELECT " + a + " FROM" + (" " + table)
    requires table != [] && !IsSpace(table[0])
    ensures pos + 12 + |a| < |q| && SkipSpaces(q, pos + 12 + |a|) == pos + 13 + |a|
    ensures q[pos + 13 + |a|..] == table
  {
    var next := pos + 12 + |a|;
    assert "SELECT " + a + " FROM" + (" " + table) == ("SELECT " + a + " FROM") + (" " + table);
    SuffixParts(q, pos, "SELECT " + a + " FROM", " " + table);
    SuffixParts(q, next, " ", table);
    assert q[next + 1] == table[0];
  }

  /** After the SELECT branch the cursor lands just past FROM, so a table
      name there is the next token: unless it starts with a keyword,
      "type SELECT columns FROM table" is rejected at the table. */
  lemma TableAfterSelectRejected(ty: string, a: string, table: string)
    requires ty != [] && ' ' !in ty && !IsBlank(ty[0])
    requires a != [] && !IsSpace(a[0]) && Find(a, "FROM", 0).None?
    requires table != [] && !IsSpace(table[0]) && !IsBlank(table[|table| - 1])
    requires !StartsWith(table, "FROM") && !StartsWith(table, "SELECT") && !StartsWith(table, "WHERE")
    ensures ParseQuery(ty + " SELECT " + a + " FROM " + table) == Err(UnexpectedInput(table))
  {
    var rest := "SELECT " + a + " FROM" + (" " + table);
    SelectTableText(ty, a, table);
    TypeThen(ty, rest);
    ScanSelectThenTable(ty + " " + rest, |ty| + 1, Query(ty, "", [], []), a, table);
  }

  /** "type SELECT columns FROM table" as the type, a space and the rest. */
  lemma SelectTableText(ty: string, a: string, table: string)
    requires table != []
    ensures var rest := "SELECT " + a + " FROM" + (" " + table);
      ty + " " + rest == ty + " SELECT " + a + " FROM " + table &&
      rest != [] && rest[|rest| - 1] == table[|table| - 1] &&
      (ty + " " + rest)[|ty| + 1..] == rest
  {
    var rest := "SELECT " + a + " FROM" + (" " + table);
    var q := ty + " " + rest;
    assert q == ty + " SELECT " + a + " FROM " + table;
    assert rest[|rest| - 1] == table[|table| - 1];
    SuffixParts(q, 0, ty + " ", rest);
  }

  /** For example, "X SELECT a FROM users" is rejected at "users". */
  lemma ColumnsThenTable()
    ensures ParseQuery("X" + " SELECT " + "a" + " FROM " + "users") == Err(UnexpectedInput("users"))
  {
    NotKeyword("users", "FROM");
    NotKeyword("users", "SELECT");
    NotKeyword("users", "WHERE");
    TableAfterSelectRejected("X", "a", "users");
  }

  /** From "SELECT columns FROM FROM table" at the cursor, the second FROM
      is a keyword at the cursor the SELECT branch leaves: the scan sets
      the columns, then the table, and ends. */
  lemma ScanSelectThenFrom(q: string, pos: nat, acc: Query, a: string, table: string)
    requires pos <= |q| && q[pos..] == "SELECT " + a + " FROM" + (" " + ("FROM " + table))
    requires a != [] && !IsSpace(a[0]) && Find(a, "FROM", 0).None?
    requires table != [] && ' ' !in table && !IsSpace(table[0])
    ensures Scan(q, pos, acc) == Ok(acc.(columns := TrimAll(Pieces(a + " ")), table := table))
  {
    SelectThenToken(q, pos, acc, a, "FROM " + table);
    FromEndsAfterTurn(q, pos, acc, pos + 12 + |a|, acc.(columns := TrimAll(Pieces(a + " "))), table);
  }

  /** A turn that resumes where a space and then "FROM table" follow: the
      scan sets the table and ends. */
  lemma FromEndsAfterTurn(q: string, pos: nat, acc: Query, next: nat, acc': Query, table: string)
    requires pos < next < |q| && ScanStep(q, pos, acc) == Resume(next, acc')
    requires SkipSpaces(q, next) == next + 1 && q[next + 1..] == "FROM " + table
    requires table != [] && ' ' !in table && !IsSpace(table[0])
    ensures Scan(q, pos, acc) == Ok(acc'.(table := table))
  {
    FromAfterSpace(q, next, acc', table);
    EndsAfterTwoTurns(q, pos, acc, next, acc', acc'.(table := table));
  }

  /** A turn at a space and then "FROM table" sets the table and moves the
      cursor to the end. */
  lemma FromAfterSpace(q: string, next: nat, acc: Query, table: string)
    requires next < |q| && SkipSpaces(q, next) == next + 1 && q[next + 1..] == "FROM " + table
    requires table != [] && ' ' !in table && !IsSpace(table[0])
    ensures ScanStep(q, next, acc) == Resume(|q|, acc.(table := table))
  {
    assert StartsWith(q[next + 1..], "FROM") by {
      assert q[next + 1..][..4] == "FROM";
    }
    FromAtEnd(q, next + 1, acc, table);
  }

  /** A turn that resumes leaves the scan from where it resumes. */
  lemma ScanAfterTurn(q: string, pos: nat, acc: Query, next: nat, acc': Query)
    requires pos < |q| && ScanStep(q, pos, acc) == Resume(next, acc')
    ensures Scan(q, pos, acc) == Scan(q, next, acc')
  {
    ScanResumes(q, pos, acc);
  }

  /** Two turns, the second of which reaches the end, end the scan. */
  lemma EndsAfterTwoTurns(q: string, pos: nat, acc: Query, next: nat, acc': Query, last: Query)
    requires pos < next < |q| && ScanStep(q, pos, acc) == Resume(next, acc')
    requires ScanStep(q, next, acc') == Resume(|q|, last)
    ensures Scan(q, pos, acc) == Ok(last)
  {
    ScanResumes(q, pos, acc);
    ScanResumes(q, next, acc');
  }

  /** A second FROM does let a table follow the columns:
      "type SELECT columns FROM FROM table" has the columns and the table. */
  lemma FromFromAfterSelect(ty: string, a: string, table: string)
    requires ty != [] && ' ' !in ty && !IsBlank(ty[0])
    requires a != [] && !IsSpace(a[0]) && Find(a, "FROM", 0).None?
    requires table != [] && ' ' !in table && !IsSpace(table[0]) && !IsBlank(table[|table| - 1])
    ensures ParseQuery(ty + " SELECT " + a + " FROM FROM " + table) == Ok(Query(ty, table, TrimAll(Pieces(a + " ")), []))
  {
    var rest := "SELECT " + a + " FROM" + (" " + ("FROM " + table));
    SelectFromFromText(ty, a, table);
    TypeThen(ty, rest);
    ScanSelectThenFrom(ty + " " + rest, |ty| + 1, Query(ty, "", [], []), a, table);
  }

  /** "type SELECT columns FROM FROM table" as the type, a space and the
      rest. */
  lemma SelectFromFromText(ty: string, a: string, table: string)
    requires table != []
    ensures var rest := "SELECT " + a + " FROM" + (" " + ("FROM " + table));
      ty + " " + rest == ty + " SELECT " + a + " FROM FROM " + table &&
      rest != [] && rest[|rest| - 1] == table[|table| - 1] &&
      (ty + " " + rest)[|ty| + 1..] == rest
  {
    var from := "FROM " + table;
    SelectTableText(ty, a, from);
    assert ty + " SELECT " + a + " FROM " + from == ty + " SELECT " + a + " FROM FROM " + table;
    assert from[|from| - 1] == table[|table| - 1];
  }

  /** For example, "X SELECT a FROM FROM users" has the columns ["a"] and
      the table "users". */
  lemma ColumnsThenFromTable()
    ensures ParseQuery("X" + " SELECT " + "a" + " FROM FROM " + "users") == Ok(Query("X", "users", ["a"], []))
  {
    assert Join(["a"]) == "a";
    ColumnsBeforeFrom(["a"]);
    FromFromAfterSelect("X", "a", "users");
  }
}
