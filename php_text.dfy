/** String operations of the PHP runtime that the search-term parser relies on:
    the `\s*,\s*` clean-up, a comma split, hyphen stripping, comma-to-space
    replacement and PHP's truthiness of strings. Strings are sequences of
    characters; no encoding is modelled. */
module PhpText {

  /** The PCRE `\s` class: space, tab, line feed, vertical tab, form feed, carriage return. */
  predicate IsSpace(c: char) {
    c == ' ' || 9 <= c as int <= 13
  }

  /** A string is truthy in PHP unless it is "" or "0". */
  predicate Truthy(s: string) {
    s != "" && s != "0"
  }

  /** The characters of `s` that are not whitespace, in order. */
  function NonSpace(s: string): (r: string)
    ensures forall c :: c in r <==> c in s && !IsSpace(c)
  {
    if s == [] then []
    else if IsSpace(s[0]) then NonSpace(s[1..])
    else [s[0]] + NonSpace(s[1..])
  }

  /** Length of the whitespace run at the front of `s`. */
  function LeadingSpaces(s: string): (n: nat)
    ensures n <= |s|
    ensures forall i :: 0 <= i < n ==> IsSpace(s[i])
    ensures n < |s| ==> !IsSpace(s[n])
  {
    if s != [] && IsSpace(s[0]) then 1 + LeadingSpaces(s[1..]) else 0
  }

  /** True when the regular expression `\s*,\s*` matches at the front of `s`. */
  predicate CommaMatchAt(s: string) {
    var w := LeadingSpaces(s);
    w < |s| && s[w] == ','
  }

  /** No whitespace character stands right before or right after a comma. */
  predicate TightCommas(r: string) {
    forall i :: 0 <= i < |r| && r[i] == ',' ==>
      (i == 0 || !IsSpace(r[i - 1])) && (i + 1 == |r| || !IsSpace(r[i + 1]))
  }

  // The pattern replacement of line 185: scanning left to right, every match
  // of `\s*,\s*` (a comma with the whitespace around it) becomes one comma.
  function CollapseCommaSpace(s: string): string
    decreases |s|
  {
    if s == [] then []
    else if CommaMatchAt(s) then "," + CollapseCommaSpace(AfterMatch(s))
    else [s[0]] + CollapseCommaSpace(s[1..])
  }

  /** What follows a match of `\s*,\s*` at the front of `s`. */
  function AfterMatch(s: string): (t: string)
    requires CommaMatchAt(s)
    ensures |t| < |s|
  {
    var rest := s[LeadingSpaces(s) + 1..];
    rest[LeadingSpaces(rest)..]
  }

  /** The clean-up only deletes whitespace: the other characters, commas
      included, survive in their order. */
  lemma {:induction false} CollapseKeepsNonSpace(s: string)
    ensures NonSpace(CollapseCommaSpace(s)) == NonSpace(s)
    decreases |s|
  {
    if s == [] {
    } else if CommaMatchAt(s) {
      CollapseKeepsNonSpace(AfterMatch(s));
      NonSpaceOfMatch(s);
      assert CollapseCommaSpace(s) == [','] + CollapseCommaSpace(AfterMatch(s));
      NonSpaceCons(',', CollapseCommaSpace(AfterMatch(s)));
    } else {
      CollapseKeepsNonSpace(s[1..]);
      assert CollapseCommaSpace(s) == [s[0]] + CollapseCommaSpace(s[1..]);
      NonSpaceCons(s[0], CollapseCommaSpace(s[1..]));
      assert s == [s[0]] + s[1..];
      NonSpaceCons(s[0], s[1..]);
    }
  }

  /** A match contributes its comma and nothing else to the non-whitespace content. */
  lemma {:induction false} NonSpaceOfMatch(s: string)
    requires CommaMatchAt(s)
    ensures NonSpace(s) == [','] + NonSpace(AfterMatch(s))
  {
    var w := LeadingSpaces(s);
    var rest := s[w + 1..];
    NonSpaceSkip(s, w);
    NonSpaceSkip(rest, LeadingSpaces(rest));
    assert s[w..] == [','] + rest;
    NonSpaceCons(',', rest);
  }

  lemma {:induction false} NonSpaceCons(c: char, x: string)
    ensures NonSpace([c] + x) == (if IsSpace(c) then [] else [c]) + NonSpace(x)
  {
    assert ([c] + x)[1..] == x;
  }

  /** Dropping a whitespace prefix does not change the non-whitespace content. */
  lemma {:induction false} NonSpaceSkip(s: string, n: nat)
    requires n <= |s|
    requires forall i :: 0 <= i < n ==> IsSpace(s[i])
    ensures NonSpace(s) == NonSpace(s[n..])
    decreases n
  {
    if n > 0 {
      NonSpaceSkip(s[1..], n - 1);
      assert s[1..][n - 1..] == s[n..];
    }
  }

  /** A string without whitespace is left unchanged by the clean-up. */
  lemma {:induction false} CollapseWithoutSpace(s: string)
    requires forall i :: 0 <= i < |s| ==> !IsSpace(s[i])
    ensures CollapseCommaSpace(s) == s
    decreases |s|
  {
    if s != [] {
      CollapseWithoutSpace(s[1..]);
      if s[0] == ',' {
        assert LeadingSpaces(s[1..]) == 0 by {
          if |s| > 1 { assert !IsSpace(s[1..][0]); }
        }
        assert s[1..][0..] == s[1..];
      }
      assert s == [s[0]] + s[1..];
    }
  }

  /** A string without a comma is left unchanged by the clean-up: whitespace
      away from commas survives, so "ice cream" stays one two-word keyword. */
  lemma {:induction false} CollapseWithoutComma(s: string)
    requires ',' !in s
    ensures CollapseCommaSpace(s) == s
    decreases |s|
  {
    if s != [] {
      assert !CommaMatchAt(s) by {
        var w := LeadingSpaces(s);
        if w < |s| { assert s[w] in s; }
      }
      CollapseWithoutComma(s[1..]);
      assert s == [s[0]] + s[1..];
    }
  }

  /** `s` with its trailing whitespace removed. */
  function TrimEnd(s: string): (r: string)
    ensures |r| <= |s| && r == s[..|r|]
    ensures forall i :: |r| <= i < |s| ==> IsSpace(s[i])
    ensures r != [] ==> !IsSpace(r[|r| - 1])
    decreases |s|
  {
    if LeadingSpaces(s) == |s| then []
    else
      var t := TrimEnd(s[1..]);
      [s[0]] + t
  }

  /** A string that is all whitespace is its own leading run. */
  lemma {:induction false} LeadingSpacesAll(s: string)
    requires forall i :: 0 <= i < |s| ==> IsSpace(s[i])
    ensures LeadingSpaces(s) == |s|
    decreases |s|
  {
    if s != [] {
      LeadingSpacesAll(s[1..]);
    }
  }

  /** The leading whitespace run of a concatenation. */
  lemma {:induction false} LeadingSpacesAppend(a: string, t: string)
    ensures LeadingSpaces(a + t) == if LeadingSpaces(a) == |a| then |a| + LeadingSpaces(t) else LeadingSpaces(a)
    decreases |a|
  {
    if a == [] {
      assert a + t == t;
    } else {
      LeadingSpacesAppend(a[1..], t);
      assert (a + t)[0] == a[0];
      assert (a + t)[1..] == a[1..] + t;
    }
  }

  /** The clean-up at the first comma: the whitespace right before it and
      right after it goes, and everything before it is kept as it is. With
      `CollapseWithoutComma` this fixes the clean-up on every input: in
      "ice cream , water" only the spaces around the comma go. */
  lemma {:induction false} CollapseFirstComma(a: string, b: string)
    requires ',' !in a
    ensures CollapseCommaSpace(a + "," + b) == TrimEnd(a) + "," + CollapseCommaSpace(b[LeadingSpaces(b)..])
    decreases |a|
  {
    if LeadingSpaces(a) == |a| {
      CollapseAtCommaRun(a, b);
    } else {
      CollapseBeforeComma(a, b);
      NoCommaTail(a);
      CollapseFirstComma(a[1..], b);
      TrimEndCons(a);
      ConsAssoc(a[0], TrimEnd(a[1..]), CollapseCommaSpace(b[LeadingSpaces(b)..]));
    }
  }

  lemma NoCommaTail(a: string)
    requires a != [] && ',' !in a
    ensures ',' !in a[1..]
  {
    forall i | 0 <= i < |a[1..]| ensures a[1..][i] != ',' {
      assert a[1..][i] == a[i + 1] && a[i + 1] in a;
    }
  }

  lemma TrimEndCons(a: string)
    requires LeadingSpaces(a) < |a|
    ensures TrimEnd(a) == [a[0]] + TrimEnd(a[1..])
  {
  }

  lemma ConsAssoc(c: char, x: string, y: string)
    ensures [c] + (x + "," + y) == [c] + x + "," + y
  {
  }

  /** Whitespace followed by a comma is one match. */
  lemma {:induction false} CollapseAtCommaRun(a: string, b: string)
    requires LeadingSpaces(a) == |a|
    ensures CollapseCommaSpace(a + "," + b) == "," + CollapseCommaSpace(b[LeadingSpaces(b)..])
  {
    var s := a + ("," + b);
    assert a + "," + b == s;
    LeadingSpacesAppend(a, "," + b);
    assert LeadingSpaces(s) == |a| + LeadingSpaces("," + b);
    assert LeadingSpaces("," + b) == 0;
    assert s[|a|] == ',';
    assert CommaMatchAt(s);
    assert s[|a| + 1..] == b;
    assert AfterMatch(s) == b[LeadingSpaces(b)..];
  }

  /** Before the whitespace that touches the first comma, no match starts. */
  lemma {:induction false} CollapseBeforeComma(a: string, b: string)
    requires ',' !in a && LeadingSpaces(a) < |a|
    ensures CollapseCommaSpace(a + "," + b) == [a[0]] + CollapseCommaSpace(a[1..] + "," + b)
  {
    var s := a + ("," + b);
    assert a + "," + b == s;
    LeadingSpacesAppend(a, "," + b);
    var w := LeadingSpaces(a);
    assert s[w] == a[w] && a[w] in a;
    assert s[1..] == a[1..] + "," + b;
  }

  /** The clean-up result starts with the first character of its input when
      that is not whitespace. */
  lemma CollapseFirst(s: string)
    requires s != [] && !IsSpace(s[0])
    ensures CollapseCommaSpace(s) != [] && CollapseCommaSpace(s)[0] == s[0]
  {
  }

  /** The clean-up result starts with a comma only where the pattern matched. */
  lemma CollapseCommaFirst(s: string)
    requires CollapseCommaSpace(s) != [] && CollapseCommaSpace(s)[0] == ','
    ensures CommaMatchAt(s)
  {
  }

  /** After the clean-up no whitespace touches a comma. */
  lemma {:induction false} CollapseIsTight(s: string)
    ensures TightCommas(CollapseCommaSpace(s))
    decreases |s|
  {
    if s == [] {
    } else if CommaMatchAt(s) {
      var t := AfterMatch(s);
      CollapseIsTight(t);
      if t != [] {
        CollapseFirst(t);
      }
      TightAfterComma(CollapseCommaSpace(t));
    } else {
      var tail := CollapseCommaSpace(s[1..]);
      CollapseIsTight(s[1..]);
      if tail != [] && tail[0] == ',' {
        CollapseCommaFirst(s[1..]);
        if IsSpace(s[0]) {
          NoMatchAfterSpace(s);
        }
      }
      TightAfterOther(s[0], tail);
    }
  }

  /** A failed match at a whitespace character fails at the next one too. */
  lemma NoMatchAfterSpace(s: string)
    requires s != [] && IsSpace(s[0]) && !CommaMatchAt(s)
    ensures !CommaMatchAt(s[1..])
  {
    assert LeadingSpaces(s) == 1 + LeadingSpaces(s[1..]);
  }

  lemma TightAfterComma(tail: string)
    requires TightCommas(tail)
    requires tail != [] ==> !IsSpace(tail[0])
    ensures TightCommas([','] + tail)
  {
    var r := [','] + tail;
    forall i | 0 <= i < |r| && r[i] == ','
      ensures (i == 0 || !IsSpace(r[i - 1])) && (i + 1 == |r| || !IsSpace(r[i + 1]))
    {
      if i > 0 {
        assert r[i] == tail[i - 1];
      }
    }
  }

  lemma TightAfterOther(c: char, tail: string)
    requires c != ',' && TightCommas(tail)
    requires tail != [] && tail[0] == ',' ==> !IsSpace(c)
    ensures TightCommas([c] + tail)
  {
    var r := [c] + tail;
    forall i | 0 <= i < |r| && r[i] == ','
      ensures (i == 0 || !IsSpace(r[i - 1])) && (i + 1 == |r| || !IsSpace(r[i + 1]))
    {
      assert r[i] == tail[i - 1];
      if i > 1 {
        assert r[i - 1] == tail[i - 2];
      }
      if i + 1 < |r| {
        assert r[i + 1] == tail[i];
      }
    }
  }

  /** A plain split on `,` (the `str_getcsv` call without its quote handling).
      The empty string gives one empty field, as `str_getcsv("")` gives one
      null field; both are falsy downstream. */
  function Split(s: string): (r: seq<string>)
    ensures |r| >= 1
    decreases |s|
  {
    if s == [] then [[]]
    else if s[0] == ',' then [[]] + Split(s[1..])
    else
      var t := Split(s[1..]);
      [[s[0]] + t[0]] + t[1..]
  }

  /** Joins fields with `,` between them (the inverse of Split). */
  function Join(fields: seq<string>): string
    decreases |fields|
  {
    if fields == [] then []
    else if |fields| == 1 then fields[0]
    else fields[0] + "," + Join(fields[1..])
  }

  /** Splitting and joining again gives back the original string, and no
      field holds a comma. */
  lemma {:induction false} SplitJoin(s: string)
    ensures Join(Split(s)) == s
    ensures forall k :: 0 <= k < |Split(s)| ==> ',' !in Split(s)[k]
    decreases |s|
  {
    if s == [] {
    } else if s[0] == ',' {
      SplitJoin(s[1..]);
      var t := Split(s[1..]);
      assert Split(s) == [[]] + t;
      assert Split(s)[1..] == t;
      assert s == [] + "," + s[1..];
      forall k | 0 <= k < |Split(s)| ensures ',' !in Split(s)[k] {
        if k > 0 { assert Split(s)[k] == t[k - 1]; }
      }
    } else {
      SplitJoin(s[1..]);
      SplitJoinCons(s[0], Split(s[1..]));
      assert s == [s[0]] + s[1..];
      var t := Split(s[1..]);
      var r := Split(s);
      assert r == [[s[0]] + t[0]] + t[1..];
      forall k | 0 <= k < |r| ensures ',' !in r[k] {
        if k > 0 { assert r[k] == t[k]; }
      }
    }
  }

  /** Prepending a character to the first field prepends it to the join. */
  lemma {:induction false} SplitJoinCons(c: char, t: seq<string>)
    requires |t| >= 1
    ensures Join([[c] + t[0]] + t[1..]) == [c] + Join(t)
  {
    var tail := t[1..];
    if tail == [] {
      assert [[c] + t[0]] + tail == [[c] + t[0]];
      assert t == [t[0]];
    } else {
      assert t == [t[0]] + tail;
      JoinCons(t[0], tail);
      JoinCons([c] + t[0], tail);
      var rest := "," + Join(tail);
      assert ([c] + t[0]) + rest == [c] + (t[0] + rest);
    }
  }

  /** The other direction of the round trip: fields without commas come back
      from splitting their join. */
  lemma {:induction false} JoinSplit(fields: seq<string>)
    requires |fields| >= 1
    requires forall k :: 0 <= k < |fields| ==> ',' !in fields[k]
    ensures Split(Join(fields)) == fields
    decreases |fields|, |fields[0]|
  {
    var f := fields[0];
    if f == [] {
      if |fields| > 1 {
        JoinSplit(fields[1..]);
        assert Join(fields) == "," + Join(fields[1..]);
        assert Join(fields)[1..] == Join(fields[1..]);
      }
    } else {
      assert f[0] != ',' by { assert f[0] in f; }
      var fields' := [f[1..]] + fields[1..];
      CommaFreeTail(fields);
      JoinSplit(fields');
      assert fields == [f] + fields[1..];
      JoinFirstChar(f, fields[1..]);
      var j := Join(fields);
      assert j[0] == f[0] && j[1..] == Join(fields');
      var t := Split(j[1..]);
      assert Split(j) == [[f[0]] + t[0]] + t[1..];
      assert [f[0]] + f[1..] == f;
    }
  }

  /** Dropping the first character of the first field keeps every field comma-free. */
  lemma CommaFreeTail(fields: seq<string>)
    requires |fields| >= 1 && fields[0] != []
    requires forall k :: 0 <= k < |fields| ==> ',' !in fields[k]
    ensures var fields' := [fields[0][1..]] + fields[1..];
            forall k :: 0 <= k < |fields'| ==> ',' !in fields'[k]
  {
    var f := fields[0];
    var fields' := [f[1..]] + fields[1..];
    forall k | 0 <= k < |fields'| ensures ',' !in fields'[k] {
      if k == 0 {
        assert forall c :: c in f[1..] ==> c in f;
      } else {
        assert fields'[k] == fields[k];
      }
    }
  }

  /** The joined string starts with the first field's first character,
      followed by the join with that character removed. */
  lemma {:induction false} JoinFirstChar(f: string, tail: seq<string>)
    requires f != []
    ensures Join([f] + tail) == [f[0]] + Join([f[1..]] + tail)
  {
    assert f == [f[0]] + f[1..];
    if tail == [] {
      assert [f] + tail == [f];
      assert [f[1..]] + tail == [f[1..]];
    } else {
      JoinCons(f, tail);
      JoinCons(f[1..], tail);
      var rest := "," + Join(tail);
      assert f + rest == [f[0]] + (f[1..] + rest);
    }
  }

  lemma {:induction false} JoinCons(f: string, tail: seq<string>)
    requires tail != []
    ensures Join([f] + tail) == f + "," + Join(tail)
  {
    assert ([f] + tail)[1..] == tail;
  }

  /** A character of any field is a character of the joined string. */
  lemma {:induction false} JoinContains(fields: seq<string>, k: nat, c: char)
    requires k < |fields| && c in fields[k]
    ensures c in Join(fields)
    decreases |fields|
  {
    if |fields| > 1 {
      if k == 0 {
        assert Join(fields) == fields[0] + ("," + Join(fields[1..]));
      } else {
        JoinContains(fields[1..], k - 1, c);
        assert Join(fields) == (fields[0] + ",") + Join(fields[1..]);
      }
    }
  }

  /** A character of a field of `Split(s)` occurs in `s`. */
  lemma SplitFieldChars(s: string, k: nat, c: char)
    requires k < |Split(s)| && c in Split(s)[k]
    ensures c in s
  {
    SplitJoin(s);
    JoinContains(Split(s), k, c);
  }

  /** `preg_replace('/[-]/', '', s)`: every hyphen removed, all else kept in order. */
  function StripHyphens(s: string): (r: string)
    ensures '-' !in r
    ensures forall c :: c != '-' ==> (c in r <==> c in s)
    ensures |r| <= |s|
    ensures '-' !in s ==> r == s
  {
    if s == [] then []
    else if s[0] == '-' then StripHyphens(s[1..])
    else [s[0]] + StripHyphens(s[1..])
  }

  /** Stripping works character by character, so it keeps the order of what
      it keeps: it distributes over concatenation. */
  lemma {:induction false} StripHyphensAppend(a: string, b: string)
    ensures StripHyphens(a + b) == StripHyphens(a) + StripHyphens(b)
    decreases |a|
  {
    if a == [] {
      assert a + b == b;
    } else {
      var ab := a + b;
      assert ab[0] == a[0];
      assert ab[1..] == a[1..] + b;
      StripHyphensAppend(a[1..], b);
      var head: string := if a[0] == '-' then [] else [a[0]];
      assert StripHyphens(ab) == head + StripHyphens(a[1..] + b);
      assert StripHyphens(a) == head + StripHyphens(a[1..]);
    }
  }

  /** Stripping removes every hyphen and nothing else: each other character
      keeps its number of occurrences. */
  lemma {:induction false} StripHyphensCounts(s: string)
    ensures multiset(StripHyphens(s)) == multiset(s)['-' := 0]
    decreases |s|
  {
    if s != [] {
      StripHyphensCounts(s[1..]);
      assert s == [s[0]] + s[1..];
      assert multiset(s) == multiset{s[0]} + multiset(s[1..]);
    }
  }

  /** `str_replace(',', ' ', s)`: every comma becomes a space. */
  function CommasToSpaces(s: string): (r: string)
    ensures |r| == |s|
    ensures ',' !in r
    ensures forall i :: 0 <= i < |s| && s[i] != ',' ==> r[i] == s[i]
    ensures forall i :: 0 <= i < |s| && s[i] == ',' ==> r[i] == ' '
  {
    seq(|s|, i requires 0 <= i < |s| => if s[i] == ',' then ' ' else s[i])
  }
}
