/**
 * Header normalisation and the search for the identifier column
 * (`normalize_header` and `locate_uid_field`).
 */
module Headers {
  import opened Wrappers
  import opened Text

  /** `s.replace("\u00A0", " ")`: every no-break space becomes a space. */
  function ReplaceNbsp(s: string): (r: string)
    ensures |r| == |s|
    ensures forall k :: 0 <= k < |s| ==> r[k] == (if s[k] == NBSP then ' ' else s[k])
    ensures forall k :: 0 <= k < |r| ==> r[k] != NBSP && (IsSpace(r[k]) <==> IsSpace(s[k]))
  {
    seq(|s|, k requires 0 <= k < |s| => if s[k] == NBSP then ' ' else s[k])
  }

  predicate IsWord(w: string) {
    w != [] && forall k :: 0 <= k < |w| ==> !IsSpace(w[k])
  }

  /** The length of the run of non-whitespace characters that starts `s`. */
  function WordLength(s: string): (n: nat)
    ensures n <= |s|
    ensures forall k :: 0 <= k < n ==> !IsSpace(s[k])
    ensures n < |s| ==> IsSpace(s[n])
  {
    if s == [] || IsSpace(s[0]) then 0 else 1 + WordLength(s[1..])
  }

  /** Python's `s.split()`: the maximal runs of non-whitespace characters, in order. */
  function Split(s: string): (ws: seq<string>)
    ensures forall k :: 0 <= k < |ws| ==> IsWord(ws[k])
    decreases |s|
  {
    if s == [] then []
    else if IsSpace(s[0]) then Split(s[1..])
    else
      var n := WordLength(s);
      [s[..n]] + Split(s[n..])
  }

  /**
   * Words separated by single spaces: the only whitespace is ' ', it never
   * starts or ends the string and never comes twice in a row.
   */
  predicate SingleSpaced(s: string) {
    && (forall k :: 0 <= k < |s| ==> IsSpace(s[k]) ==> s[k] == ' ')
    && (s != [] ==> s[0] != ' ' && s[|s| - 1] != ' ')
    && (forall k :: 0 <= k < |s| - 1 ==> s[k] == ' ' ==> s[k + 1] != ' ')
  }

  /** What `normalize_header` promises of its output. */
  predicate IsNormalized(s: string) {
    SingleSpaced(s) && forall k :: 0 <= k < |s| ==> !IsUpper(s[k])
  }

  /**
   * `normalize_header`: NBSP becomes a space, whitespace runs collapse to one
   * space with none at either end, and ASCII letters are lower-cased.
   * Python's `(s or "")` makes `None` and `""` alike.
   */
  function NormalizeHeader(h: Option<string>): (r: string)
    ensures h == None || h == Some("") ==> r == ""
  {
    var s := match h case Some(v) => v case None => "";
    Lower(JoinWith(" ", Split(Strip(ReplaceNbsp(s)))))
  }

  /** No surrounding or doubled spaces, no other whitespace and no upper-case letters. */
  lemma NormalizeHeaderSpec(h: Option<string>)
    ensures IsNormalized(NormalizeHeader(h))
  {
    var s := match h case Some(v) => v case None => "";
    var joined := JoinWith(" ", Split(Strip(ReplaceNbsp(s))));
    JoinedWordsSingleSpaced(Split(Strip(ReplaceNbsp(s))));
    LowerAt(joined);
  }

  lemma {:induction false} JoinedWordsSingleSpaced(ws: seq<string>)
    requires forall k :: 0 <= k < |ws| ==> IsWord(ws[k])
    ensures SingleSpaced(JoinWith(" ", ws))
    ensures ws != [] ==> JoinWith(" ", ws) != [] && JoinWith(" ", ws)[0] == ws[0][0]
    ensures ws == [] ==> JoinWith(" ", ws) == []
  {
    if |ws| >= 2 {
      var rest := JoinWith(" ", ws[1..]);
      JoinedWordsSingleSpaced(ws[1..]);
      var s := ws[0] + " " + rest;
      assert JoinWith(" ", ws) == s;
      forall k | 0 <= k < |s|
        ensures IsSpace(s[k]) ==> s[k] == ' '
      {
        if k > |ws[0]| { assert s[k] == rest[k - |ws[0]| - 1]; }
      }
      forall k | 0 <= k < |s| - 1
        ensures s[k] == ' ' ==> s[k + 1] != ' '
      {
        if k > |ws[0]| { assert s[k] == rest[k - |ws[0]| - 1]; }
        else if k == |ws[0]| { assert s[k + 1] == rest[0] == ws[1][0]; }
        else if k + 1 < |ws[0]| { assert s[k] == ws[0][k]; }
      }
      assert s[|s| - 1] == rest[|rest| - 1];
    }
  }

  /** A single-spaced string is rebuilt exactly by splitting it and joining its words. */
  lemma {:induction false} SplitJoinSingleSpaced(s: string)
    requires SingleSpaced(s)
    ensures JoinWith(" ", Split(s)) == s
    ensures s != [] ==> Split(s) != []
    decreases |s|
  {
    if s != [] {
      var n := WordLength(s);
      assert Split(s) == [s[..n]] + Split(s[n..]) by {
        assert !IsSpace(s[0]);
      }
      if n < |s| {
        SingleSpacedAfterWord(s, n);
        SplitJoinSingleSpaced(s[n + 1..]);
        JoinAfterWord(s, n, Split(s[n + 1..]));
      } else {
        assert s[n..] == [] && s[..n] == s;
      }
    }
  }

  /** The joining step: a word, one space, and the words of the rest joined back. */
  lemma JoinAfterWord(s: string, n: nat, rest: seq<string>)
    requires 0 < n < |s| - 1 && s[n] == ' '
    requires rest != [] && JoinWith(" ", rest) == s[n + 1..]
    ensures JoinWith(" ", [s[..n]] + rest) == s
  {
    JoinWithCons(" ", s[..n], rest);
    assert s == s[..n] + " " + s[n + 1..];
  }

  /** In a single-spaced string, a word that is not the last is followed by one space and more single-spaced text. */
  lemma SingleSpacedAfterWord(s: string, n: nat)
    requires SingleSpaced(s) && s != [] && n == WordLength(s) && n < |s|
    ensures 0 < n && s[n] == ' ' && n + 1 < |s|
    ensures SingleSpaced(s[n + 1..]) && Split(s[n + 1..]) != []
    ensures Split(s[n..]) == Split(s[n + 1..])
  {
    assert IsSpace(s[n]);
    var t := s[n + 1..];
    SingleSpacedSuffix(s, n + 1);
    assert s[n..][1..] == t;
  }

  /** What follows a space in a single-spaced string is single-spaced. */
  lemma SingleSpacedSuffix(s: string, m: nat)
    requires SingleSpaced(s) && 0 < m < |s| && s[m - 1] == ' '
    ensures SingleSpaced(s[m..])
  {
    var t := s[m..];
    forall k | 0 <= k < |t|
      ensures IsSpace(t[k]) ==> t[k] == ' '
    {
      assert t[k] == s[m + k];
    }
    forall k | 0 <= k < |t| - 1
      ensures t[k] == ' ' ==> t[k + 1] != ' '
    {
      assert t[k] == s[m + k] && t[k + 1] == s[m + k + 1];
    }
    assert t[0] == s[m] && t[|t| - 1] == s[|s| - 1];
  }

  /** Normalised text is left unchanged by `normalize_header`. */
  lemma NormalizedIsFixpoint(s: string)
    requires IsNormalized(s)
    ensures NormalizeHeader(Some(s)) == s
  {
    assert ReplaceNbsp(s) == s;
    assert Strip(s) == s by {
      assert LeadingSpaces(s) == 0;
      assert s[0..] == s;
      assert TrailingStart(s) == |s|;
    }
    SplitJoinSingleSpaced(s);
    LowerAt(s);
    assert Lower(s) == s;
  }

  /** `normalize_header` is idempotent. */
  lemma NormalizeIdempotent(h: Option<string>)
    ensures NormalizeHeader(Some(NormalizeHeader(h))) == NormalizeHeader(h)
  {
    NormalizeHeaderSpec(h);
    NormalizedIsFixpoint(NormalizeHeader(h));
  }

  /** A word followed by whitespace (or by nothing) is the first element of the split. */
  lemma SplitLeadingWord(w: string, rest: string)
    requires IsWord(w) && (rest == [] || IsSpace(rest[0]))
    ensures Split(w + rest) == [w] + Split(rest)
  {
    WordLengthOfWord(w, rest);
    assert (w + rest)[..|w|] == w && (w + rest)[|w|..] == rest;
  }

  lemma {:induction false} WordLengthOfWord(w: string, rest: string)
    requires IsWord(w) && (rest == [] || IsSpace(rest[0]))
    ensures WordLength(w + rest) == |w|
  {
    if |w| > 1 {
      assert (w + rest)[1..] == w[1..] + rest;
      WordLengthOfWord(w[1..], rest);
    } else {
      assert (w + rest)[1..] == rest;
    }
  }

  /** NBSP counts as a space, and outer whitespace and case disappear. */
  lemma NormalizeExample()
    ensures NormalizeHeader(Some("  UniProt\U{A0}ID ")) == "uniprot id"
  {
    StripExample();
    SplitExample();
    LowerExample();
  }

  lemma LowerExample()
    ensures Lower(JoinWith(" ", ["UniProt", "ID"])) == "uniprot id"
  {
    assert JoinWith(" ", ["UniProt", "ID"]) == "UniProt ID";
    LowerMatches("UniProt ID", "uniprot id");
  }

  lemma StripExample()
    ensures Strip(ReplaceNbsp("  UniProt\U{A0}ID ")) == "UniProt ID"
  {
    assert ReplaceNbsp("  UniProt\U{A0}ID ") == "  " + "UniProt ID" + " ";
    StripSurrounded("  ", "UniProt ID", " ");
  }

  lemma SplitExample()
    ensures Split("UniProt ID") == ["UniProt", "ID"]
  {
    assert "UniProt ID" == "UniProt" + " " + "ID";
    SplitTwoWords("UniProt", "ID");
  }

  /** Two words with one space between them split back into those two words. */
  lemma SplitTwoWords(a: string, b: string)
    requires IsWord(a) && IsWord(b)
    ensures Split(a + " " + b) == [a, b]
  {
    assert a + " " + b == a + (" " + b);
    SplitLeadingWord(a, " " + b);
    assert (" " + b)[1..] == b;
    assert b + "" == b;
    SplitLeadingWord(b, "");
  }

  /** The characters of `s` that are not whitespace, in order. */
  function NonSpace(s: string): (r: string)
    ensures |r| <= |s|
    ensures forall k :: 0 <= k < |r| ==> !IsSpace(r[k])
  {
    if s == [] then [] else (if IsSpace(s[0]) then [] else [s[0]]) + NonSpace(s[1..])
  }

  /** The words of a split, concatenated. */
  function Flat(ws: seq<string>): string {
    if ws == [] then [] else ws[0] + Flat(ws[1..])
  }

  lemma {:induction false} NonSpaceAppend(a: string, b: string)
    ensures NonSpace(a + b) == NonSpace(a) + NonSpace(b)
  {
    if a == [] {
      assert a + b == b;
    } else {
      assert (a + b)[1..] == a[1..] + b;
      NonSpaceAppend(a[1..], b);
    }
  }

  lemma {:induction false} NonSpaceWord(w: string)
    requires forall k :: 0 <= k < |w| ==> !IsSpace(w[k])
    ensures NonSpace(w) == w
  {
    if w != [] {
      NonSpaceWord(w[1..]);
      assert w == [w[0]] + w[1..];
    }
  }

  /** `split()` drops only whitespace: its words, concatenated, are the other characters of `s`. */
  lemma {:induction false} SplitKeepsContent(s: string)
    ensures Flat(Split(s)) == NonSpace(s)
    decreases |s|
  {
    if s != [] {
      if IsSpace(s[0]) {
        SplitKeepsContent(s[1..]);
      } else {
        var n := WordLength(s);
        SplitKeepsContent(s[n..]);
        assert s == s[..n] + s[n..];
        NonSpaceAppend(s[..n], s[n..]);
        NonSpaceWord(s[..n]);
        var ws := [s[..n]] + Split(s[n..]);
        assert ws[1..] == Split(s[n..]);
      }
    }
  }

  predicate AllSpace(s: string) {
    forall k :: 0 <= k < |s| ==> IsSpace(s[k])
  }

  /** Leading whitespace contributes no word. */
  lemma {:induction false} SplitSkipsSpace(ws: string, rest: string)
    requires AllSpace(ws)
    ensures Split(ws + rest) == Split(rest)
    decreases |ws|
  {
    if ws == [] {
      assert ws + rest == rest;
    } else {
      assert (ws + rest)[0] == ws[0];
      assert (ws + rest)[1..] == ws[1..] + rest;
      SplitSkipsSpace(ws[1..], rest);
    }
  }

  lemma ReplaceNbspAppend(x: string, y: string)
    ensures ReplaceNbsp(x + y) == ReplaceNbsp(x) + ReplaceNbsp(y)
  {
  }

  /** Replacing NBSP keeps every word in place. */
  lemma {:induction false} WordLengthReplace(s: string)
    ensures WordLength(ReplaceNbsp(s)) == WordLength(s)
    decreases |s|
  {
    if s != [] && !IsSpace(s[0]) {
      assert ReplaceNbsp(s)[1..] == ReplaceNbsp(s[1..]);
      WordLengthReplace(s[1..]);
    }
  }

  /** NBSP already counts as whitespace for `split()`, so replacing it changes no word. */
  lemma {:induction false} ReplaceNbspSplit(s: string)
    ensures Split(ReplaceNbsp(s)) == Split(s)
    decreases |s|
  {
    if s != [] {
      var r := ReplaceNbsp(s);
      if IsSpace(s[0]) {
        assert r[1..] == ReplaceNbsp(s[1..]);
        ReplaceNbspSplit(s[1..]);
      } else {
        var n := WordLength(s);
        WordLengthReplace(s);
        assert r[..n] == s[..n];
        assert r[n..] == ReplaceNbsp(s[n..]);
        ReplaceNbspSplit(s[n..]);
      }
    }
  }

  /** One word with any whitespace, NBSP included, around it normalises to the word lower-cased. */
  lemma NormalizeOneWord(pre: string, a: string, post: string)
    requires AllSpace(pre) && AllSpace(post) && IsWord(a)
    ensures NormalizeHeader(Some(pre + a + post)) == Lower(a)
  {
    ReplaceWordThen(a, post, pre);
    ReplaceNbspSpace(pre);
    ReplaceNbspSpace(post);
    StripSurrounded(ReplaceNbsp(pre), a, ReplaceNbsp(post));
    assert a + "" == a;
    SplitLeadingWord(a, "");
  }

  /** Case and surrounding spaces do not matter: `"  UniProt_ID "` is the `uniprot_id` column. */
  lemma UnderscoreExample()
    ensures NormalizeHeader(Some("  UniProt_ID ")) == "uniprot_id"
  {
    assert "  UniProt_ID " == "  " + "UniProt_ID" + " ";
    NormalizeOneWord("  ", "UniProt_ID", " ");
    LowerUnderscoreExample();
  }

  lemma LowerUnderscoreExample()
    ensures Lower("UniProt_ID") == "uniprot_id"
  {
    LowerMatches("UniProt_ID", "uniprot_id");
  }

  /**
   * Two words with any whitespace (NBSP included) around and between them
   * normalise to the lower-cased words joined by a single space.
   */
  lemma NormalizeTwoWords(pre: string, a: string, ws: string, b: string, post: string)
    requires AllSpace(pre) && AllSpace(ws) && AllSpace(post) && ws != []
    requires IsWord(a) && IsWord(b)
    ensures NormalizeHeader(Some(pre + a + ws + b + post)) == Lower(a) + " " + Lower(b)
  {
    var ws' := ReplaceTwoWords(pre, a, ws, b, post);
    SplitSpacedWords(a, ws', b);
    LowerJoinTwo(a, b);
  }

  /** NBSP replacement keeps the words and leaves whitespace only around and between them. */
  lemma ReplaceTwoWords(pre: string, a: string, ws: string, b: string, post: string) returns (ws': string)
    requires AllSpace(pre) && AllSpace(ws) && AllSpace(post) && ws != []
    requires IsWord(a) && IsWord(b)
    ensures AllSpace(ws') && ws' != []
    ensures Strip(ReplaceNbsp(pre + a + ws + b + post)) == a + ws' + b
  {
    ws' := ReplaceNbsp(ws);
    ReplaceAround(pre, a, ws, b, post);
    ReplaceNbspSpace(pre);
    ReplaceNbspSpace(ws);
    ReplaceNbspSpace(post);
    StripSurrounded(ReplaceNbsp(pre), a + ws' + b, ReplaceNbsp(post));
  }

  lemma ReplaceAround(pre: string, a: string, ws: string, b: string, post: string)
    requires IsWord(a) && IsWord(b)
    ensures ReplaceNbsp(pre + a + ws + b + post)
         == ReplaceNbsp(pre) + (a + ReplaceNbsp(ws) + b) + ReplaceNbsp(post)
  {
    var rest := ws + b + post;
    ReplaceWordThen(b, post, ws);
    ReplaceWordThen(a, rest, pre);
    Regroup(pre, a, ws, b, post);
    Regroup(ReplaceNbsp(pre), a, ReplaceNbsp(ws), b, ReplaceNbsp(post));
  }

  lemma Regroup(p: string, a: string, w: string, b: string, q: string)
    ensures p + a + (w + b + q) == p + a + w + b + q == p + (a + w + b) + q
  {
  }

  /** Replacing NBSP in `pre + w + rest`, where `w` is a word, leaves `w` alone. */
  lemma ReplaceWordThen(w: string, rest: string, pre: string)
    requires IsWord(w)
    ensures ReplaceNbsp(pre + w + rest) == ReplaceNbsp(pre) + w + ReplaceNbsp(rest)
  {
    ReplaceNbspAppend(pre + w, rest);
    ReplaceNbspAppend(pre, w);
    ReplaceNbspWord(w);
  }

  lemma ReplaceNbspWord(w: string)
    requires IsWord(w)
    ensures ReplaceNbsp(w) == w
  {
  }

  lemma ReplaceNbspSpace(ws: string)
    requires AllSpace(ws)
    ensures AllSpace(ReplaceNbsp(ws))
  {
  }

  /** Two words with a non-empty run of whitespace between them split into those words. */
  lemma SplitSpacedWords(a: string, ws: string, b: string)
    requires AllSpace(ws) && ws != [] && IsWord(a) && IsWord(b)
    ensures Split(a + ws + b) == [a, b]
  {
    assert a + ws + b == a + (ws + b);
    SplitLeadingWord(a, ws + b);
    SplitSkipsSpace(ws, b);
    assert b + "" == b;
    SplitLeadingWord(b, "");
  }

  lemma LowerJoinTwo(a: string, b: string)
    ensures Lower(JoinWith(" ", [a, b])) == Lower(a) + " " + Lower(b)
  {
    assert JoinWith(" ", [a, b]) == a + (" " + b);
    LowerAppend(a, " " + b);
    LowerAppend(" ", b);
  }

  /** The header spellings accepted for the identifier column, in priority order. */
  const Candidates: seq<string> := ["uniprot id", "uniprot_id", "uniprot accession", "id"]

  /** Header `i` is present and `norm` maps it to `key`. */
  ghost predicate NormalizesTo(norm: Option<string> -> string, fieldnames: seq<Option<string>>, i: int, key: string) {
    0 <= i < |fieldnames| && fieldnames[i].Some? && norm(fieldnames[i]) == key
  }

  /** Header `i` is the last present header that `norm` maps to `key`. */
  ghost predicate LastNormalizingTo(norm: Option<string> -> string, fieldnames: seq<Option<string>>, i: int, key: string) {
    NormalizesTo(norm, fieldnames, i, key)
    && forall j :: i < j < |fieldnames| ==> !NormalizesTo(norm, fieldnames, j, key)
  }

  /**
   * `{norm(h): h for h in fieldnames if h is not None}`, built in header order
   * so that a later header overwrites an earlier one with the same key.
   */
  function KeyedMap(norm: Option<string> -> string, fieldnames: seq<Option<string>>): map<string, string>
  {
    if fieldnames == [] then map[]
    else
      var m := KeyedMap(norm, fieldnames[..|fieldnames| - 1]);
      match fieldnames[|fieldnames| - 1]
      case None => m
      case Some(h) => m[norm(Some(h)) := h]
  }

  /**
   * The keys of the map are the keys of the present headers, and each key maps
   * to the last present header with that key.
   */
  lemma {:induction false} KeyedMapSpec(norm: Option<string> -> string, fieldnames: seq<Option<string>>)
    ensures forall key :: key in KeyedMap(norm, fieldnames) <==> exists i :: NormalizesTo(norm, fieldnames, i, key)
    ensures forall key :: key in KeyedMap(norm, fieldnames) ==>
              exists i :: LastNormalizingTo(norm, fieldnames, i, key)
                          && fieldnames[i] == Some(KeyedMap(norm, fieldnames)[key])
  {
    if fieldnames != [] {
      var n := |fieldnames| - 1;
      var init := fieldnames[..n];
      KeyedMapSpec(norm, init);
      var m := KeyedMap(norm, init);
      var last := fieldnames[n];
      assert KeyedMap(norm, fieldnames) == if last.None? then m else m[norm(last) := last.value];
      forall key
        ensures key in KeyedMap(norm, fieldnames) <==> exists i :: NormalizesTo(norm, fieldnames, i, key)
      {
        if key in KeyedMap(norm, fieldnames) {
          if last.Some? && key == norm(last) {
            assert NormalizesTo(norm, fieldnames, n, key);
          } else {
            var i :| NormalizesTo(norm, init, i, key);
            assert NormalizesTo(norm, fieldnames, i, key);
          }
        }
        if exists i :: NormalizesTo(norm, fieldnames, i, key) {
          var i :| NormalizesTo(norm, fieldnames, i, key);
          if i < n {
            assert NormalizesTo(norm, init, i, key);
          }
        }
      }
      forall key | key in KeyedMap(norm, fieldnames)
        ensures exists i :: LastNormalizingTo(norm, fieldnames, i, key)
                            && fieldnames[i] == Some(KeyedMap(norm, fieldnames)[key])
      {
        if last.Some? && key == norm(last) {
          assert LastNormalizingTo(norm, fieldnames, n, key);
        } else {
          var i :| LastNormalizingTo(norm, init, i, key) && init[i] == Some(m[key]);
          assert !NormalizesTo(norm, fieldnames, n, key);
          forall j | i < j < |fieldnames|
            ensures !NormalizesTo(norm, fieldnames, j, key)
          {
            if j < n {
              assert !NormalizesTo(norm, init, j, key);
            }
          }
          assert LastNormalizingTo(norm, fieldnames, i, key);
        }
      }
    }
  }

  /** The first of `keys` present in `m`, mapped through `m`. */
  function FirstPresent(keys: seq<string>, m: map<string, string>): (r: Option<string>)
    ensures r.None? <==> forall k :: 0 <= k < |keys| ==> keys[k] !in m
    ensures r.Some? ==> exists k :: 0 <= k < |keys| && keys[k] in m && r.value == m[keys[k]]
                                    && forall j :: 0 <= j < k ==> keys[j] !in m
  {
    if keys == [] then None
    else if keys[0] in m then Some(m[keys[0]])
    else
      var r := FirstPresent(keys[1..], m);
      assert r.Some? ==> exists k :: 1 <= k < |keys| && keys[k] in m && r.value == m[keys[k]]
                                     && forall j :: 0 <= j < k ==> keys[j] !in m by {
        if r.Some? {
          var k :| 0 <= k < |keys[1..]| && keys[1..][k] in m && r.value == m[keys[1..][k]]
                   && forall j :: 0 <= j < k ==> keys[1..][j] !in m;
          assert forall j :: 1 <= j < k + 1 ==> keys[j] == keys[1..][j - 1];
        }
      }
      r
  }

  /**
   * Header `i` is the last one mapped to `keys[k]`, and no present header maps to
   * an earlier key.
   */
  ghost predicate SelectedBy(norm: Option<string> -> string, keys: seq<string>, fieldnames: seq<Option<string>>, k: int, i: int) {
    && 0 <= k < |keys|
    && LastNormalizingTo(norm, fieldnames, i, keys[k])
    && forall j, i' :: 0 <= j < k ==> !NormalizesTo(norm, fieldnames, i', keys[j])
  }

  /** Looking keys up in priority order in the keyed map finds nothing exactly when no present header maps to a key. */
  lemma FirstPresentKeyedNone(norm: Option<string> -> string, keys: seq<string>, fieldnames: seq<Option<string>>)
    ensures FirstPresent(keys, KeyedMap(norm, fieldnames)).None? <==>
              forall i, k :: 0 <= k < |keys| ==> !NormalizesTo(norm, fieldnames, i, keys[k])
  {
    var m := KeyedMap(norm, fieldnames);
    KeyedMapSpec(norm, fieldnames);
    if FirstPresent(keys, m).None? {
      forall i, k | 0 <= k < |keys|
        ensures !NormalizesTo(norm, fieldnames, i, keys[k])
      {
        assert keys[k] !in m;
      }
    } else {
      var k :| 0 <= k < |keys| && keys[k] in m;
      var i :| NormalizesTo(norm, fieldnames, i, keys[k]);
    }
  }

  /** A lookup that succeeds returns the header of the column `SelectedBy` describes. */
  lemma FirstPresentKeyedSome(norm: Option<string> -> string, keys: seq<string>, fieldnames: seq<Option<string>>)
    requires FirstPresent(keys, KeyedMap(norm, fieldnames)).Some?
    ensures exists k, i :: SelectedBy(norm, keys, fieldnames, k, i)
                          && fieldnames[i] == Some(FirstPresent(keys, KeyedMap(norm, fieldnames)).value)
  {
    var m := KeyedMap(norm, fieldnames);
    KeyedMapSpec(norm, fieldnames);
    var r := FirstPresent(keys, m);
    var k :| 0 <= k < |keys| && keys[k] in m && r.value == m[keys[k]]
             && forall j :: 0 <= j < k ==> keys[j] !in m;
    var i :| LastNormalizingTo(norm, fieldnames, i, keys[k]) && fieldnames[i] == Some(m[keys[k]]);
    forall j | 0 <= j < k
      ensures forall i' :: !NormalizesTo(norm, fieldnames, i', keys[j])
    {
      assert keys[j] !in m;
    }
    assert SelectedBy(norm, keys, fieldnames, k, i);
  }

  /** At most one column satisfies `SelectedBy`. */
  lemma SelectedByUnique(norm: Option<string> -> string, keys: seq<string>, fieldnames: seq<Option<string>>,
                         k: int, i: int, k': int, i': int)
    requires SelectedBy(norm, keys, fieldnames, k, i) && SelectedBy(norm, keys, fieldnames, k', i')
    ensures k == k' && i == i'
  {
    assert NormalizesTo(norm, fieldnames, i, keys[k]);
    assert NormalizesTo(norm, fieldnames, i', keys[k']);
  }

  /**
   * The column chosen by `locate_uid_field`: header `i` is the last one normalising
   * to candidate `k`, and no present header normalises to an earlier candidate.
   */
  ghost predicate SelectedColumn(fieldnames: seq<Option<string>>, k: int, i: int) {
    SelectedBy(NormalizeHeader, Candidates, fieldnames, k, i)
  }

  /** `locate_uid_field`: the original text of the identifier column's header, if any. */
  function LocateUidField(fieldnames: seq<Option<string>>): Option<string>
  {
    FirstPresent(Candidates, KeyedMap(NormalizeHeader, fieldnames))
  }

  /** `locate_uid_field` finds nothing exactly when no present header normalises to a candidate. */
  lemma LocateUidFieldNone(fieldnames: seq<Option<string>>)
    ensures LocateUidField(fieldnames).None? <==>
              forall i, k :: 0 <= k < |Candidates| ==> !NormalizesTo(NormalizeHeader, fieldnames, i, Candidates[k])
  {
    FirstPresentKeyedNone(NormalizeHeader, Candidates, fieldnames);
  }

  /**
   * When `locate_uid_field` finds a column, it returns the original text of the
   * column `SelectedColumn` describes, which is one of the headers and never empty.
   */
  lemma LocateUidFieldSome(fieldnames: seq<Option<string>>)
    requires LocateUidField(fieldnames).Some?
    ensures var h := LocateUidField(fieldnames).value;
            && Some(h) in fieldnames && h != ""
            && exists k, i :: SelectedColumn(fieldnames, k, i) && fieldnames[i] == Some(h)
  {
    var h := FirstPresent(Candidates, KeyedMap(NormalizeHeader, fieldnames)).value;
    FirstPresentKeyedSome(NormalizeHeader, Candidates, fieldnames);
    var k, i :| SelectedBy(NormalizeHeader, Candidates, fieldnames, k, i) && fieldnames[i] == Some(h);
    assert NormalizesTo(NormalizeHeader, fieldnames, i, Candidates[k]);
    CandidateHeaderNonEmpty(h, k);
    assert fieldnames[i] in fieldnames;
    assert SelectedColumn(fieldnames, k, i);
  }

  /** No candidate is empty, so a header that normalises to one is not empty either. */
  lemma CandidateHeaderNonEmpty(h: string, k: int)
    requires 0 <= k < |Candidates| && NormalizeHeader(Some(h)) == Candidates[k]
    ensures h != ""
  {
    assert Candidates[k] != "";
  }

  /** At most one column satisfies `SelectedColumn`, so it determines the result. */
  lemma SelectedColumnUnique(fieldnames: seq<Option<string>>, k: int, i: int, k': int, i': int)
    requires SelectedColumn(fieldnames, k, i) && SelectedColumn(fieldnames, k', i')
    ensures k == k' && i == i'
  {
    SelectedByUnique(NormalizeHeader, Candidates, fieldnames, k, i, k', i');
  }
}
