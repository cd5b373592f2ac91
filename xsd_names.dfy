/** Name normalisation of the XSD object model: how attribute names, class
    names and element tags read from a schema become Python identifiers
    (`FileFormat.name_attribute`, `FileFormat.name_class` and the class name
    derived in `NodeTree.factory`). */
module XsdNames {
  import opened Common
  import opened Ascii

  /** Length of the leading run of non-whitespace characters of `s`. */
  function WordLength(s: string): (n: nat)
    ensures n <= |s|
    ensures forall k :: 0 <= k < n ==> !IsSpace(s[k])
    ensures n < |s| ==> IsSpace(s[n])
  {
    if s == [] || IsSpace(s[0]) then 0 else 1 + WordLength(s[1..])
  }

  /** `s.split()`: the maximal runs of non-whitespace characters, in order. */
  function Words(s: string): (ws: seq<string>)
    decreases |s|
    ensures forall k :: 0 <= k < |ws| ==> ws[k] != [] && NoSpace(ws[k])
    ensures forall k, c :: 0 <= k < |ws| && c in ws[k] ==> c in s
  {
    if s == [] then []
    else if IsSpace(s[0]) then
      assert forall c :: c in s[1..] ==> c in s;
      Words(s[1..])
    else
      var n := WordLength(s);
      assert forall c :: c in s[n..] ==> c in s;
      assert forall c :: c in s[..n] ==> c in s;
      [s[..n]] + Words(s[n..])
  }

  /** `sep.join(parts)` */
  function Join(sep: string, parts: seq<string>): string
  {
    if parts == [] then ""
    else if |parts| == 1 then parts[0]
    else parts[0] + sep + Join(sep, parts[1..])
  }

  /** `s.replace(a, b)` for single characters. */
  function ReplaceChar(s: string, a: char, b: char): (r: string)
    ensures |r| == |s|
    ensures forall k :: 0 <= k < |s| ==> r[k] == if s[k] == a then b else s[k]
  {
    if s == [] then [] else [if s[0] == a then b else s[0]] + ReplaceChar(s[1..], a, b)
  }

  function LowerAll(parts: seq<string>): (r: seq<string>)
    ensures |r| == |parts|
    ensures forall k :: 0 <= k < |parts| ==> r[k] == Lower(parts[k])
  {
    if parts == [] then [] else [Lower(parts[0])] + LowerAll(parts[1..])
  }

  /** The attribute name: ':' becomes '_', the whitespace-separated words are
      lower-cased and joined with '_'. The result is a usable identifier:
      no whitespace, no ':' and no upper-case letter. */
  function NameAttribute(name: string): (r: string)
    ensures NoSpace(r) && ':' !in r && NoUpper(r)
  {
    JoinedWordsIdentifier(name);
    Join("_", LowerAll(Words(ReplaceChar(name, ':', '_'))))
  }

  lemma {:induction false} JoinChars(sep: string, parts: seq<string>, c: char)
    requires c in Join(sep, parts)
    ensures c in sep || exists k :: 0 <= k < |parts| && c in parts[k]
  {
    if |parts| > 1 {
      var rest := Join(sep, parts[1..]);
      assert Join(sep, parts) == parts[0] + sep + rest;
      if c !in parts[0] && c !in sep {
        JoinChars(sep, parts[1..], c);
        var k :| 0 <= k < |parts[1..]| && c in parts[1..][k];
        assert c in parts[k + 1];
      }
    }
  }

  /** The lower-cased words of `name` with ':' replaced, joined with '_',
      hold no whitespace, no ':' and no upper-case letter. */
  lemma JoinedWordsIdentifier(name: string)
    ensures var r := Join("_", LowerAll(Words(ReplaceChar(name, ':', '_'))));
      NoSpace(r) && ':' !in r && NoUpper(r)
  {
    var replaced := ReplaceChar(name, ':', '_');
    var parts := LowerAll(Words(replaced));
    var r := Join("_", parts);
    forall c | c in r
      ensures !IsSpace(c) && c != ':' && !IsUpper(c)
    {
      JoinChars("_", parts, c);
      if c != '_' {
        var k :| 0 <= k < |parts| && c in parts[k];
        var w := Words(replaced)[k];
        var j :| 0 <= j < |parts[k]| && parts[k][j] == c;
        assert c == ToLower(w[j]);
        assert w[j] in replaced;
      }
    }
  }

  /** `name.split()` of a string without whitespace is the string itself. */
  lemma WordsOfWord(s: string)
    requires NoSpace(s)
    ensures Words(s) == if s == [] then [] else [s]
  {
    if s != [] {
      assert WordLength(s) == |s|;
      assert s[..|s|] == s;
      assert s[|s|..] == [];
    }
  }

  /** A word followed by a whitespace character splits off first. */
  lemma WordsOfWordThen(w: string, c: char, rest: string)
    requires w != [] && NoSpace(w) && IsSpace(c)
    ensures Words(w + [c] + rest) == [w] + Words(rest)
  {
    var s := w + [c] + rest;
    assert WordLength(s[|w|..]) == 0;
    assert WordLength(s) == |w| by {
      WordLengthOfPrefix(w, [c] + rest);
    }
    assert s[..|w|] == w;
    assert s[|w|..][1..] == rest;
  }

  lemma {:induction false} WordLengthOfPrefix(w: string, t: string)
    requires NoSpace(w)
    requires t != [] && IsSpace(t[0])
    ensures WordLength(w + t) == |w|
  {
    if w != [] {
      assert (w + t)[1..] == w[1..] + t;
      WordLengthOfPrefix(w[1..], t);
    } else {
      assert w + t == t;
    }
  }

  /** Whitespace-only (or empty) input yields the empty name. */
  lemma {:induction false} WordsOfSpaces(s: string)
    requires forall k :: 0 <= k < |s| ==> IsSpace(s[k])
    ensures Words(s) == []
  {
    if s != [] {
      WordsOfSpaces(s[1..]);
    }
  }

  lemma NameAttributeOfSpaces(name: string)
    requires forall k :: 0 <= k < |name| ==> IsSpace(name[k])
    ensures NameAttribute(name) == ""
  {
    WordsOfSpaces(ReplaceChar(name, ':', '_'));
  }

  /** Normalising an attribute name twice gives the same as normalising it once. */
  lemma NameAttributeIdempotent(name: string)
    ensures NameAttribute(NameAttribute(name)) == NameAttribute(name)
  {
    var r := NameAttribute(name);
    assert ReplaceChar(r, ':', '_') == r;
    WordsOfWord(r);
    if r != [] {
      LowerOfNoUpper(r);
      assert LowerAll([r]) == [r];
    }
  }

  /** Splitting on whitespace undoes joining non-empty, whitespace-free
      words with single spaces. */
  lemma {:induction false} WordsOfJoin(ws: seq<string>)
    requires forall k :: 0 <= k < |ws| ==> ws[k] != [] && NoSpace(ws[k])
    ensures Words(Join(" ", ws)) == ws
  {
    if |ws| == 1 {
      WordsOfWord(ws[0]);
    } else if |ws| > 1 {
      WordsOfJoin(ws[1..]);
      assert Join(" ", ws) == ws[0] + [' '] + Join(" ", ws[1..]);
      WordsOfWordThen(ws[0], ' ', Join(" ", ws[1..]));
    }
  }

  /** For a name made of space-separated words without ':', the attribute
      name is the lower-cased words joined with '_'. */
  lemma NameAttributeOfWords(ws: seq<string>)
    requires forall k :: 0 <= k < |ws| ==> ws[k] != [] && NoSpace(ws[k]) && ':' !in ws[k]
    ensures NameAttribute(Join(" ", ws)) == Join("_", LowerAll(ws))
  {
    var s := Join(" ", ws);
    forall c | c in s ensures c != ':' {
      JoinChars(" ", ws, c);
    }
    ReplaceAbsent(s, ':', '_');
    WordsOfJoin(ws);
  }

  /** The doctest of `name_attribute`. */
  lemma NameAttributeExample()
    ensures NameAttribute("tHis is A Silly naME") == "this_is_a_silly_name"
  {
    var name := "tHis is A Silly naME";
    var ws := ["tHis", "is", "A", "Silly", "naME"];
    assert Join(" ", ws) == name;
    NameAttributeOfWords(ws);
    LowerExampleWords();
    JoinExampleWords();
  }

  lemma JoinExampleWords()
    ensures Join("_", ["this", "is", "a", "silly", "name"]) == "this_is_a_silly_name"
  {
  }

  lemma LowerExampleWords()
    ensures LowerAll(["tHis", "is", "A", "Silly", "naME"]) == ["this", "is", "a", "silly", "name"]
  {
    LowerExample("tHis", "this");
    LowerExample("is", "is");
    LowerExample("A", "a");
    LowerExample("Silly", "silly");
    LowerExample("naME", "name");
  }

  lemma LowerExample(w: string, c: string)
    requires |c| == |w| && forall k :: 0 <= k < |w| ==> c[k] == ToLower(w[k])
    ensures Lower(w) == c
  {
  }

  lemma ReplaceAbsent(s: string, a: char, b: char)
    requires a !in s
    ensures ReplaceChar(s, a, b) == s
  {
  }

  /** Index of the first `sep` in `s`, or |s| when there is none. */
  function IndexOf(s: string, sep: char): (n: nat)
    ensures n <= |s|
    ensures sep !in s[..n]
    ensures n < |s| ==> s[n] == sep
  {
    if s == [] then 0
    else if s[0] == sep then 0
    else
      assert s[..1 + IndexOf(s[1..], sep)] == [s[0]] + s[1..][..IndexOf(s[1..], sep)];
      1 + IndexOf(s[1..], sep)
  }

  /** `s.split(sep)` with an explicit separator: the pieces between
      separators, empty pieces included, so that there is always one more
      piece than separators. */
  function SplitOn(s: string, sep: char): (ps: seq<string>)
    decreases |s|
    ensures |ps| >= 1
    ensures forall k :: 0 <= k < |ps| ==> sep !in ps[k]
  {
    var n := IndexOf(s, sep);
    if n == |s| then [s] else [s[..n]] + SplitOn(s[n + 1..], sep)
  }

  lemma {:induction false} SplitOnChars(s: string, sep: char, k: nat, c: char)
    requires k < |SplitOn(s, sep)| && c in SplitOn(s, sep)[k]
    ensures c in s
    decreases |s|
  {
    var n := IndexOf(s, sep);
    if n < |s| {
      if k == 0 {
        assert c in s[..n];
      } else {
        SplitOnChars(s[n + 1..], sep, k - 1, c);
        assert c in s[n + 1..];
      }
    }
  }

  /** `part[0].upper() + part[1:]` */
  function Capitalize(part: string): (r: string)
    requires part != []
    ensures |r| == |part| && r[1..] == part[1..] && r[0] == ToUpper(part[0])
  {
    [ToUpper(part[0])] + part[1..]
  }

  /** The parts `name_class` visits: each whitespace-separated word split on
      '_' (Python's `[part.split("_") for part in name.split()]`). */
  function ClassNameParts(name: string): (partss: seq<seq<string>>)
    ensures |partss| == |Words(name)|
    ensures forall a :: 0 <= a < |partss| ==> partss[a] == SplitOn(Words(name)[a], '_')
  {
    var ws := Words(name);
    seq(|ws|, a requires 0 <= a < |ws| => SplitOn(ws[a], '_'))
  }

  function Flatten(partss: seq<seq<string>>): (ps: seq<string>)
  {
    if partss == [] then [] else Flatten(partss[..|partss| - 1]) + partss[|partss| - 1]
  }

  /** Every part capitalised and concatenated, in order; None when some part
      is empty, where Python's `part[0]` raises IndexError. */
  function CapitalizeAll(ps: seq<string>): Option<string>
  {
    if ps == [] then Some("")
    else
      match CapitalizeAll(ps[..|ps| - 1])
      case None => None
      case Some(prefix) =>
        var last := ps[|ps| - 1];
        if last == [] then None else Some(prefix + Capitalize(last))
  }

  /** What `name_class` computes: None stands for the IndexError it raises. */
  function NameClassOf(name: string): Option<string>
  {
    CapitalizeAll(Flatten(ClassNameParts(name)))
  }

  lemma FlattenSnoc(partss: seq<seq<string>>, a: nat)
    requires a < |partss|
    ensures Flatten(partss[..a + 1]) == Flatten(partss[..a]) + partss[a]
  {
    assert partss[..a + 1][..a] == partss[..a];
  }

  lemma CapitalizeAllSnoc(ps: seq<string>, part: string)
    ensures CapitalizeAll(ps + [part]) ==
      match CapitalizeAll(ps)
      case None => None
      case Some(prefix) => if part == [] then None else Some(prefix + Capitalize(part))
  {
    assert (ps + [part])[..|ps|] == ps;
  }

  /** Once some part is empty, no longer list of parts can be capitalised. */
  lemma {:induction false} CapitalizeNoneExtends(prefix: seq<string>, whole: seq<string>)
    requires prefix <= whole
    requires CapitalizeAll(prefix) == None
    ensures CapitalizeAll(whole) == None
    decreases |whole|
  {
    if |whole| > |prefix| {
      var init := whole[..|whole| - 1];
      assert prefix <= init;
      CapitalizeNoneExtends(prefix, init);
    } else {
      assert prefix == whole;
    }
  }

  lemma {:induction false} FlattenPrefix(partss: seq<seq<string>>, m: nat)
    requires m <= |partss|
    ensures Flatten(partss[..m]) <= Flatten(partss)
    decreases |partss| - m
  {
    if m < |partss| {
      FlattenPrefix(partss, m + 1);
      FlattenSnoc(partss, m);
      assert partss[..|partss|] == partss;
    } else {
      assert partss[..m] == partss;
    }
  }

  /** `FileFormat.name_class`: the nested loop over words and their
      '_'-separated parts, appending each capitalised part to `attrname`. */
  /** One part of the inner `name_class` loop appended. */
  lemma CapitalizeStep(pre: seq<string>, parts: seq<string>, b: nat, attrname: string)
    requires b < |parts| && parts[b] != []
    requires CapitalizeAll(pre + parts[..b]) == Some(attrname)
    ensures CapitalizeAll(pre + parts[..b + 1]) == Some(attrname + Capitalize(parts[b]))
  {
    assert parts[..b + 1] == parts[..b] + [parts[b]];
    assert pre + parts[..b + 1] == (pre + parts[..b]) + [parts[b]];
    CapitalizeAllSnoc(pre + parts[..b], parts[b]);
  }

  /** An empty part makes the whole `name_class` raise. */
  lemma NameClassEmptyPart(partss: seq<seq<string>>, a: nat, b: nat)
    requires a < |partss| && b < |partss[a]| && partss[a][b] == []
    ensures CapitalizeAll(Flatten(partss)) == None
  {
    var parts := partss[a];
    var pre := Flatten(partss[..a]) + parts[..b];
    assert parts[..b + 1] == parts[..b] + [parts[b]];
    assert Flatten(partss[..a]) + parts[..b + 1] == pre + [parts[b]];
    CapitalizeAllSnoc(pre, parts[b]);
    FlattenPrefix(partss, a + 1);
    FlattenSnoc(partss, a);
    assert Flatten(partss[..a]) + parts[..b + 1] <= Flatten(partss[..a + 1]);
    CapitalizeNoneExtends(Flatten(partss[..a]) + parts[..b + 1], Flatten(partss));
  }

  method NameClass(name: string) returns (r: Option<string>)
    ensures r == NameClassOf(name)
  {
    var partss := ClassNameParts(name);
    var attrname := "";
    var a := 0;
    while a < |partss|
      invariant 0 <= a <= |partss|
      invariant CapitalizeAll(Flatten(partss[..a])) == Some(attrname)
    {
      var parts := partss[a];
      var b := 0;
      assert Flatten(partss[..a]) + parts[..b] == Flatten(partss[..a]);
      while b < |parts|
        invariant 0 <= b <= |parts|
        invariant CapitalizeAll(Flatten(partss[..a]) + parts[..b]) == Some(attrname)
      {
        var part := parts[b];
        if part == [] {
          // part[0] raises IndexError, and so does every longer prefix.
          NameClassEmptyPart(partss, a, b);
          return None;
        }
        CapitalizeStep(Flatten(partss[..a]), parts, b, attrname);
        attrname := attrname + Capitalize(part);
        b := b + 1;
      }
      assert parts[..b] == parts;
      FlattenSnoc(partss, a);
      a := a + 1;
    }
    assert partss[..a] == partss;
    r := Some(attrname);
  }

  /** A character that may appear in a Python class name built by
      `name_class`: neither whitespace nor '_'. */
  predicate Plain(c: char)
  {
    c != '_' && !IsSpace(c)
  }

  lemma {:induction false} CapitalizeAllPlain(ps: seq<string>, r: string)
    requires CapitalizeAll(ps) == Some(r)
    requires forall k, c :: 0 <= k < |ps| && c in ps[k] ==> Plain(c)
    ensures forall c :: c in r ==> Plain(c)
  {
    if ps != [] {
      var init := ps[..|ps| - 1];
      var last := ps[|ps| - 1];
      var prefix := CapitalizeAll(init).value;
      assert forall k :: 0 <= k < |init| ==> init[k] == ps[k];
      CapitalizeAllPlain(init, prefix);
      assert r == prefix + Capitalize(last);
      forall j | 0 <= j < |last| ensures Plain(Capitalize(last)[j]) {
        assert last[j] in ps[|ps| - 1];
        ToUpperKeeps(last[j]);
      }
    }
  }

  /** Upper-casing neither makes nor removes a '_' or a whitespace character. */
  lemma ToUpperKeeps(d: char)
    ensures Plain(ToUpper(d)) <==> Plain(d)
  {
  }

  /** The result is a usable class name: no whitespace and no '_'. */
  lemma NameClassIsIdentifier(name: string)
    requires NameClassOf(name).Some?
    ensures NoSpace(NameClassOf(name).value)
    ensures '_' !in NameClassOf(name).value
  {
    var partss := ClassNameParts(name);
    var ps := Flatten(partss);
    forall k, c | 0 <= k < |ps| && c in ps[k] ensures Plain(c) {
      FlattenMember(partss, k);
      var a, b :| 0 <= a < |partss| && 0 <= b < |partss[a]| && ps[k] == partss[a][b];
      SplitOnChars(Words(name)[a], '_', b, c);
    }
    var r := NameClassOf(name).value;
    CapitalizeAllPlain(ps, r);
    forall k | 0 <= k < |r| ensures !IsSpace(r[k]) {
      assert Plain(r[k]);
    }
  }

  lemma {:induction false} FlattenMember(partss: seq<seq<string>>, k: nat)
    requires k < |Flatten(partss)|
    ensures exists a, b :: 0 <= a < |partss| && 0 <= b < |partss[a]| && Flatten(partss)[k] == partss[a][b]
  {
    var n := |partss|;
    var init := Flatten(partss[..n - 1]);
    if k < |init| {
      FlattenMember(partss[..n - 1], k);
      var a, b :| 0 <= a < n - 1 && 0 <= b < |partss[..n - 1][a]| && init[k] == partss[..n - 1][a][b];
      assert Flatten(partss)[k] == partss[a][b];
    } else {
      assert Flatten(partss)[k] == partss[n - 1][k - |init|];
    }
  }

  lemma {:induction false} FlattenHas(partss: seq<seq<string>>, a: nat, b: nat)
    requires a < |partss| && b < |partss[a]|
    ensures partss[a][b] in Flatten(partss)
  {
    var n := |partss|;
    if a < n - 1 {
      FlattenHas(partss[..n - 1], a, b);
    }
  }

  /** `name_class` raises IndexError exactly when some '_'-separated part is
      empty (a leading, trailing or doubled '_' inside a word). */
  lemma {:induction false} CapitalizeAllNone(ps: seq<string>)
    ensures CapitalizeAll(ps) == None <==> [] in ps
  {
    if ps != [] {
      var init := ps[..|ps| - 1];
      CapitalizeAllNone(init);
      assert ps == init + [ps[|ps| - 1]];
    }
  }

  lemma NameClassFailsOnEmptyPart(name: string)
    ensures NameClassOf(name) == None <==> [] in Flatten(ClassNameParts(name))
  {
    CapitalizeAllNone(Flatten(ClassNameParts(name)));
  }

  /** Two separators in a row leave an empty piece between them. */
  lemma {:induction false} SplitOnDoubled(s: string, sep: char, j: nat)
    requires j + 1 < |s| && s[j] == sep && s[j + 1] == sep
    ensures [] in SplitOn(s, sep)
    decreases |s|
  {
    var n := IndexOf(s, sep);
    if n < j {
      SplitOnDoubled(s[n + 1..], sep, j - n - 1);
    } else {
      assert n == j;
      assert IndexOf(s[n + 1..], sep) == 0;
      assert SplitOn(s, sep)[1] == [];
    }
  }

  /** A word with a doubled '_' (such as `a__b`) makes `name_class` raise. */
  lemma NameClassDoubleUnderscore(name: string, a: nat, j: nat)
    requires a < |Words(name)| && j + 1 < |Words(name)[a]|
    requires Words(name)[a][j] == '_' && Words(name)[a][j + 1] == '_'
    ensures NameClassOf(name) == None
  {
    var partss := ClassNameParts(name);
    SplitOnDoubled(Words(name)[a], '_', j);
    var b :| 0 <= b < |partss[a]| && partss[a][b] == [];
    FlattenHas(partss, a, b);
    CapitalizeAllNone(Flatten(partss));
  }

  lemma SplitOnAbsent(s: string, sep: char)
    requires sep !in s
    ensures SplitOn(s, sep) == [s]
  {
    assert s[..|s|] == s;
  }

  lemma CapitalizeAll4(a: string, b: string, c: string, d: string)
    requires a != [] && b != [] && c != [] && d != []
    ensures CapitalizeAll([a, b, c, d]) == Some(Capitalize(a) + Capitalize(b) + Capitalize(c) + Capitalize(d))
  {
    CapitalizeAllSnoc([], a);
    assert [] + [a] == [a] && [] + Capitalize(a) == Capitalize(a);
    CapitalizeAllSnoc([a], b);
    assert [a] + [b] == [a, b];
    CapitalizeAllSnoc([a, b], c);
    assert [a, b] + [c] == [a, b, c];
    CapitalizeAllSnoc([a, b, c], d);
    assert [a, b, c] + [d] == [a, b, c, d];
  }

  lemma {:induction false} FlattenSingletons(partss: seq<seq<string>>, ws: seq<string>)
    requires |partss| == |ws| && forall a :: 0 <= a < |ws| ==> partss[a] == [ws[a]]
    ensures Flatten(partss) == ws
  {
    if ws != [] {
      var n := |ws|;
      FlattenSingletons(partss[..n - 1], ws[..n - 1]);
      assert ws == ws[..n - 1] + [ws[n - 1]];
    }
  }

  /** For space-separated words that hold no '_', `name_class` capitalises
      each word and concatenates them. */
  lemma NameClassOfPlainWords(ws: seq<string>)
    requires forall k :: 0 <= k < |ws| ==> ws[k] != [] && NoSpace(ws[k]) && '_' !in ws[k]
    ensures NameClassOf(Join(" ", ws)) == CapitalizeAll(ws)
  {
    WordsOfJoin(ws);
    var partss := ClassNameParts(Join(" ", ws));
    forall a | 0 <= a < |ws| ensures partss[a] == [ws[a]] {
      SplitOnAbsent(ws[a], '_');
    }
    FlattenSingletons(partss, ws);
  }

  /** The doctest of `name_class`. */
  lemma NameClassExample()
    ensures NameClassOf("this IS a sillyNAME") == Some("ThisISASillyNAME")
  {
    var ws := ["this", "IS", "a", "sillyNAME"];
    assert Join(" ", ws) == "this IS a sillyNAME";
    NameClassOfPlainWords(ws);
    CapitalizeExampleWords();
  }

  lemma CapitalizeExample(w: string, c: string)
    requires w != [] && |c| == |w| && c[1..] == w[1..] && c[0] == ToUpper(w[0])
    ensures Capitalize(w) == c
  {
  }

  lemma CapitalizeExampleWords()
    ensures CapitalizeAll(["this", "IS", "a", "sillyNAME"]) == Some("ThisISASillyNAME")
  {
    CapitalizeAll4("this", "IS", "a", "sillyNAME");
    CapitalizeExample("this", "This");
    CapitalizeExample("IS", "IS");
    CapitalizeExample("a", "A");
    CapitalizeExample("sillyNAME", "SillyNAME");
    assert "This" + "IS" + "A" + "SillyNAME" == "ThisISASillyNAME";
  }

  /** The part of an element tag after its last '}' (Python's
      `tag.split("}")[-1]`): the whole tag when it has no '}'. */
  function LocalName(tag: string): (r: string)
    ensures '}' !in r && |r| <= |tag|
    ensures tag[|tag| - |r|..] == r
    ensures |r| < |tag| ==> tag[|tag| - |r| - 1] == '}'
  {
    if tag == [] then []
    else if tag[|tag| - 1] == '}' then []
    else
      var init, last := tag[..|tag| - 1], tag[|tag| - 1];
      var r := LocalName(init);
      LocalNameSnoc(tag, init, last, r);
      r + [last]
  }

  lemma LocalNameSnoc(tag: string, init: string, last: char, r: string)
    requires tag == init + [last] && last != '}'
    requires '}' !in r && |r| <= |init| && init[|init| - |r|..] == r
    requires |r| < |init| ==> init[|init| - |r| - 1] == '}'
    ensures '}' !in r + [last] && |r + [last]| <= |tag|
    ensures tag[|tag| - |r + [last]|..] == r + [last]
    ensures |r + [last]| < |tag| ==> tag[|tag| - |r + [last]| - 1] == '}'
  {
    assert tag[|tag| - |r| - 1..] == init[|init| - |r|..] + [last];
  }

  /** A tag without '}' is its own local name. */
  lemma LocalNameUnqualified(tag: string)
    requires '}' !in tag
    ensures LocalName(tag) == tag
  {
    if tag != [] {
      var init := tag[..|tag| - 1];
      assert tag == init + [tag[|tag| - 1]];
      LocalNameUnqualified(init);
    }
  }

  /** The class name `NodeTree.factory` derives from an element tag: its
      local name with the first character upper-cased; None for an empty
      local name, where `class_name[0]` raises IndexError. */
  function FactoryClassName(tag: string): (r: Option<string>)
    ensures r.None? <==> LocalName(tag) == []
    ensures r.Some? ==> r.value == Capitalize(LocalName(tag))
  {
    var local := LocalName(tag);
    if local == [] then None else Some([ToUpper(local[0])] + local[1..])
  }

  /** A namespace-qualified tag `{ns}local` gives the capitalised local name,
      whatever the namespace. */
  lemma FactoryClassNameQualified(ns: string, local: string)
    requires '}' !in local && local != []
    ensures FactoryClassName(ns + "}" + local) == Some(Capitalize(local))
  {
    var tag := ns + "}" + local;
    var r := LocalName(tag);
    assert tag[|tag| - |local| - 1] == '}';
    assert tag[|tag| - |local|..] == local;
  }

  lemma FactoryClassNameExample()
    ensures FactoryClassName("{xs}complexType") == Some("ComplexType")
  {
    FactoryClassNameQualified("{xs", "complexType");
    assert "{xs" + "}" + "complexType" == "{xs}complexType";
    assert Capitalize("complexType") == "ComplexType";
  }
}
