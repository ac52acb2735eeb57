/**
 The full-text index (`inverted_index.rs`). Lower-casing and the alphanumeric test are
 parameters; strings compare by scalar value, which is the order of their UTF-8 bytes.
 */
module InvertedIndex {
  import opened Bytes
  import opened Values

  const LAST: char := '\U{10FFFF}'

  /** The number of UTF-8 bytes of a scalar. */
  function Utf8Len(c: char): nat {
    if c as int < 0x80 then 1 else if c as int < 0x800 then 2 else if c as int < 0x1_0000 then 3 else 4
  }

  lemma Utf8LenExact(c: char)
    ensures Scalar(c as int) && Utf8Len(c) == |Utf8Encode(c as int)|
  {
  }

  function ByteLen(s: string): nat { if s == [] then 0 else Utf8Len(s[0]) + ByteLen(s[1..]) }

  // ---- Tokens ----

  /** `split` on everything that is not alphanumeric. */
  function Pieces(alnum: char -> bool, s: string): (r: seq<string>)
    ensures r != []
  {
    if s == [] then [[]]
    else
      var rest := Pieces(alnum, s[1..]);
      if alnum(s[0]) then [[s[0]] + rest[0]] + rest[1..] else [[]] + rest
  }

  function Long(pieces: seq<string>): (r: seq<string>)
    ensures forall w :: w in r <==> w in pieces && ByteLen(w) > 1
  {
    if pieces == [] then []
    else
      assert pieces == [pieces[0]] + pieces[1..];
      (if ByteLen(pieces[0]) > 1 then [pieces[0]] else []) + Long(pieces[1..])
  }

  /** `tokenize`, on text that is lower case already. */
  function Tokens(alnum: char -> bool, s: string): seq<string> { Long(Pieces(alnum, s)) }

  /** A maximal run of alphanumeric characters. */
  predicate IsRun(alnum: char -> bool, s: string, i: nat, j: nat) {
    && i < j <= |s| && (forall k | i <= k < j :: alnum(s[k]))
    && (i > 0 ==> !alnum(s[i - 1])) && (j < |s| ==> !alnum(s[j]))
  }

  /** The first piece is the alphanumeric prefix. */
  lemma {:induction false} FirstPiece(alnum: char -> bool, s: string)
    ensures var p := Pieces(alnum, s)[0];
            |p| <= |s| && p == s[..|p|] && (forall k | 0 <= k < |p| :: alnum(s[k])) && (|p| < |s| ==> !alnum(s[|p|]))
  {
    if s != [] {
      FirstPiece(alnum, s[1..]);
    }
  }

  lemma ShiftSlice(s: string, i: nat, j: nat)
    requires s != [] && i <= j <= |s| - 1
    ensures s[1..][i..j] == s[i + 1..j + 1]
    ensures forall k | 0 <= k < |s| - 1 :: s[1..][k] == s[k + 1]
  {
  }

  /** Every non-empty piece is a maximal run. */
  lemma {:induction false} PieceIsRun(alnum: char -> bool, s: string, n: nat) returns (i: nat, j: nat)
    requires n < |Pieces(alnum, s)| && Pieces(alnum, s)[n] != []
    ensures IsRun(alnum, s, i, j) && s[i..j] == Pieces(alnum, s)[n] && (n == 0 <==> i == 0)
  {
    FirstPiece(alnum, s);
    if n == 0 {
      i, j := 0, |Pieces(alnum, s)[0]|;
    } else {
      var rest := Pieces(alnum, s[1..]);
      assert Pieces(alnum, s) == if alnum(s[0]) then [[s[0]] + rest[0]] + rest[1..] else [[]] + rest;
      hide Pieces;
      var n' := if alnum(s[0]) then n else n - 1;
      i, j := PieceIsRun(alnum, s[1..], n');
      ShiftSlice(s, i, j);
      i, j := i + 1, j + 1;
    }
  }

  lemma SameEnd(alnum: char -> bool, s: string, a: nat, b: nat)
    requires a <= |s| && (forall k | 0 <= k < a :: alnum(s[k])) && (a < |s| ==> !alnum(s[a]))
    requires b <= |s| && (forall k | 0 <= k < b :: alnum(s[k])) && (b < |s| ==> !alnum(s[b]))
    ensures a == b
  {
  }

  /** Every maximal run is a piece. */
  lemma {:induction false} RunIsPiece(alnum: char -> bool, s: string, i: nat, j: nat) returns (n: nat)
    requires IsRun(alnum, s, i, j)
    ensures n < |Pieces(alnum, s)| && Pieces(alnum, s)[n] == s[i..j] && (n == 0 <==> i == 0)
  {
    FirstPiece(alnum, s);
    if i == 0 {
      n := 0;
      SameEnd(alnum, s, |Pieces(alnum, s)[0]|, j);
    } else {
      var t := s[1..];
      ShiftSlice(s, i - 1, j - 1);
      var rest := Pieces(alnum, t);
      assert Pieces(alnum, s) == if alnum(s[0]) then [[s[0]] + rest[0]] + rest[1..] else [[]] + rest;
      hide Pieces;
      n := RunIsPiece(alnum, t, i - 1, j - 1);
      n := if alnum(s[0]) then n else n + 1;
    }
  }

  /** The tokens are the maximal alphanumeric runs of more than one byte. */
  lemma TokensExact(alnum: char -> bool, s: string, w: string)
    ensures w in Tokens(alnum, s) <==> ByteLen(w) > 1 && exists i: nat, j: nat :: IsRun(alnum, s, i, j) && s[i..j] == w
  {
    if w in Tokens(alnum, s) {
      var n :| 0 <= n < |Pieces(alnum, s)| && Pieces(alnum, s)[n] == w;
      var i, j := PieceIsRun(alnum, s, n);
    }
    if ByteLen(w) > 1 && exists i: nat, j: nat :: IsRun(alnum, s, i, j) && s[i..j] == w {
      var i: nat, j: nat :| IsRun(alnum, s, i, j) && s[i..j] == w;
      var n := RunIsPiece(alnum, s, i, j);
    }
  }

  lemma RunOfOne(alnum: char -> bool, s: string, i: nat)
    requires IsRun(alnum, s, i, i + 1)
    ensures [s[i]] in Tokens(alnum, s) <==> s[i] as int >= 0x80
  {
    hide Tokens;
    assert s[i..i + 1] == [s[i]] && [s[i]][1..] == [];
    TokensExact(alnum, s, [s[i]]);
  }

  lemma TokenOfOne(alnum: char -> bool, s: string, w: string) returns (i: nat)
    requires w in Tokens(alnum, s) && |w| <= 1
    ensures IsRun(alnum, s, i, i + 1) && s[i] as int >= 0x80
  {
    hide Tokens;
    TokensExact(alnum, s, w);
    var j: nat;
    i, j :| IsRun(alnum, s, i, j) && s[i..j] == w;
    assert w == [s[i]] && w[1..] == [];
  }

  /** No token is a single character, exactly when every word of one character is ASCII. */
  lemma SinglesIff(alnum: char -> bool, s: string)
    ensures (forall w | w in Tokens(alnum, s) :: |w| > 1) <==> (forall i: nat | IsRun(alnum, s, i, i + 1) :: s[i] as int < 0x80)
  {
    hide Tokens, IsRun;
    forall i: nat | IsRun(alnum, s, i, i + 1) ensures i < |s| && (s[i] as int >= 0x80 ==> [s[i]] in Tokens(alnum, s)) {
      RunInside(alnum, s, i);
      RunOfOne(alnum, s, i);
    }
    if w :| w in Tokens(alnum, s) && |w| <= 1 {
      var i := TokenOfOne(alnum, s, w);
    }
  }

  lemma RunInside(alnum: char -> bool, s: string, i: nat)
    requires IsRun(alnum, s, i, i + 1)
    ensures i < |s|
  {
  }

  /** One accented letter is a token. */
  lemma AccentIsToken(alnum: char -> bool)
    requires alnum('\U{E9}')
    ensures Tokens(alnum, ['\U{E9}']) == [['\U{E9}']]
  {
    var s, none: string := ['\U{E9}'], [];
    assert s[1..] == none && s + none == s;
    assert Pieces(alnum, none) == [none] && [none][1..] == [];
    assert Pieces(alnum, s) == [s];
    assert ByteLen(s) > 1 && Long([s][1..]) == [];
    assert Long([s]) == [s] + [];
  }

  lemma TokenAlnum(alnum: char -> bool, s: string, w: string)
    requires w in Tokens(alnum, s)
    ensures forall k | 0 <= k < |w| :: alnum(w[k])
  {
    TokensExact(alnum, s, w);
    var i: nat, j: nat :| IsRun(alnum, s, i, j) && s[i..j] == w;
    assert forall k | 0 <= k < |w| :: w[k] == s[i + k];
  }

  // ---- The range of a prefix ----

  /** Lexicographic order, strictly. */
  predicate Precedes(a: string, b: string) {
    if b == [] then false else if a == [] then true else if a[0] != b[0] then a[0] < b[0] else Precedes(a[1..], b[1..])
  }

  /** From `word` up to `word` followed by the last scalar stand exactly the terms with that prefix. */
  lemma {:induction false} RangeIsPrefix(word: string, term: string)
    requires LAST !in term
    ensures !Precedes(term, word) && Precedes(term, word + [LAST]) <==> word <= term
  {
    if word == [] {
      assert term != [] ==> term[0] in term && term[0] as int < 0x10FFFF;
    } else if term != [] && word[0] == term[0] {
      RangeIsPrefix(word[1..], term[1..]);
      assert (word + [LAST])[1..] == word[1..] + [LAST];
      assert word <= term <==> word[1..] <= term[1..] by {
        assert word == [word[0]] + word[1..] && term == [term[0]] + term[1..];
      }
    }
  }

  // ---- The index ----

  type Id = Str
  type Terms = map<string, set<Id>>

  predicate Posted(terms: Terms, w: string, id: Id) { w in terms && id in terms[w] }

  /** No term without documents, and none with the last scalar in it. */
  predicate TermsOk(terms: Terms) {
    forall w | w in terms :: terms[w] != {} && LAST !in w
  }

  function AddTerm(terms: Terms, w: string, id: Id): Terms {
    terms[w := (if w in terms then terms[w] else {}) + {id}]
  }

  function DropTerm(terms: Terms, w: string, id: Id): Terms {
    if w !in terms then terms
    else if terms[w] - {id} == {} then terms - {w}
    else terms[w := terms[w] - {id}]
  }

  lemma TermStep(terms: Terms, w: string, id: Id, v: string, d: Id)
    ensures Posted(AddTerm(terms, w, id), v, d) <==> Posted(terms, v, d) || (v == w && d == id)
    ensures Posted(DropTerm(terms, w, id), v, d) <==> Posted(terms, v, d) && !(v == w && d == id)
  {
    if w in terms && v == w && d in terms[w] && d != id {
      assert d in terms[w] - {id};
    }
  }

  class Index {
    const lower: string -> string
    const alnum: char -> bool
    var terms: Terms
    /** The text each document was last inserted with. */
    ghost var docs: map<Id, string>

    ghost predicate Valid()
      reads this
    {
      !alnum(LAST) && TermsOk(terms)
    }

    /** A document stands under exactly the tokens of its text. */
    ghost predicate Mirrors()
      reads this
    {
      forall w, id :: Posted(terms, w, id) <==> id in docs && w in Words(docs[id])
    }

    constructor (lower: string -> string, alnum: char -> bool)
      requires !alnum(LAST)
      ensures Valid() && Mirrors() && terms == map[] && docs == map[] && this.lower == lower && this.alnum == alnum
    {
      this.lower, this.alnum := lower, alnum;
      terms, docs := map[], map[];
    }

    /** `tokenize` */
    function Words(text: string): seq<string> { Tokens(alnum, lower(text)) }

    lemma WordsOk(text: string)
      requires !alnum(LAST)
      ensures forall w | w in Words(text) :: LAST !in w
    {
      hide Tokens;
      forall w | w in Words(text) ensures LAST !in w {
        TokenAlnum(alnum, lower(text), w);
      }
    }

    method Insert(text: string, id: Id)
      requires Valid()
      modifies this
      ensures Valid() && docs == old(docs)[id := text]
      ensures forall w, d :: Posted(terms, w, d) <==> old(Posted(terms, w, d)) || (d == id && w in Words(text))
    {
      hide Tokens;
      WordsOk(text);
      var words := Words(text);
      for i := 0 to |words|
        modifies this`terms
        invariant Valid()
        invariant forall w, d :: Posted(terms, w, d) <==> old(Posted(terms, w, d)) || (d == id && w in words[..i])
      {
        var w := words[i];
        assert words[..i + 1] == words[..i] + [w];
        ghost var before := terms;
        terms := AddTerm(terms, w, id);
        forall v, d ensures Posted(terms, v, d) <==> Posted(before, v, d) || (v == w && d == id) { TermStep(before, w, id, v, d); }
        hide Posted;
      }
      assert words[..|words|] == words;
      docs := docs[id := text];
    }

    method Remove(text: string, id: Id)
      requires Valid()
      modifies this
      ensures Valid() && docs == old(docs) - {id}
      ensures forall w, d :: Posted(terms, w, d) <==> old(Posted(terms, w, d)) && !(d == id && w in Words(text))
    {
      hide Tokens;
      var words := Words(text);
      for i := 0 to |words|
        modifies this`terms
        invariant Valid()
        invariant forall w, d :: Posted(terms, w, d) <==> old(Posted(terms, w, d)) && !(d == id && w in words[..i])
      {
        var w := words[i];
        assert words[..i + 1] == words[..i] + [w];
        ghost var before := terms;
        terms := DropTerm(terms, w, id);
        forall v, d ensures Posted(terms, v, d) <==> Posted(before, v, d) && !(v == w && d == id) { TermStep(before, w, id, v, d); }
        hide Posted;
      }
      assert words[..|words|] == words;
      docs := docs - {id};
    }

    method Clear()
      requires Valid()
      modifies this
      ensures Valid() && Mirrors() && terms == map[] && docs == map[]
    {
      terms, docs := map[], map[];
    }

    ghost predicate AllPosted(words: seq<string>, id: Id)
      reads this
    {
      forall k | 0 <= k < |words| :: Posted(terms, words[k], id)
    }

    /** `search`: the ids under every word of the query. */
    method Search(query: string) returns (r: Option<set<Id>>)
      requires Valid()
      ensures r.None? <==> Words(query) == [] || exists w :: w in Words(query) && w !in terms
      ensures r.Some? ==> forall id :: id in r.value <==> AllPosted(Words(query), id)
    {
      hide Tokens;
      var words := Words(query);
      r := None;
      if words == [] {
        return;
      }
      for i := 0 to |words|
        invariant r.None? <==> i == 0
        invariant forall k | 0 <= k < i :: words[k] in terms
        invariant r.Some? ==> forall id :: id in r.value <==> AllPosted(words[..i], id)
      {
        var w := words[i];
        if w !in terms {
          assert w in words;
          return None;
        }
        r := Some(if r.Some? then r.value * terms[w] else terms[w]);
      }
      assert words[..|words|] == words;
    }

    /** Some term with prefix `w` holds the document. */
    ghost predicate PrefixPosted(w: string, id: Id)
      reads this
    {
      exists t :: w <= t && Posted(terms, t, id)
    }

    ghost predicate AllPrefixPosted(words: seq<string>, id: Id)
      reads this
    {
      forall k | 0 <= k < |words| :: PrefixPosted(words[k], id)
    }

    lemma PrefixesNext(words: seq<string>, i: nat, id: Id)
      requires i < |words|
      ensures AllPrefixPosted(words[..i + 1], id) <==> AllPrefixPosted(words[..i], id) && PrefixPosted(words[i], id)
    {
      hide PrefixPosted;
      assert words[..i + 1] == words[..i] + [words[i]];
    }

    lemma PrefixesHead(words: seq<string>, i: nat, id: Id)
      requires i <= |words|
      ensures AllPrefixPosted(words, id) ==> AllPrefixPosted(words[..i], id)
    {
      hide PrefixPosted;
    }

    /** The documents of all terms in the range of a prefix. */
    method RangeIds(word: string) returns (ids: set<Id>)
      requires Valid()
      ensures forall id :: id in ids <==> PrefixPosted(word, id)
    {
      ids := {};
      var end := word + [LAST];
      var range := set t | t in terms && !Precedes(t, word) && Precedes(t, end);
      forall t | t in terms ensures t in range <==> word <= t {
        RangeIsPrefix(word, t);
      }
      ghost var all := range;
      while range != {}
        invariant range <= all
        invariant forall id :: id in ids ==> exists t :: t in all && Posted(terms, t, id)
        invariant forall t, id | t in all && t !in range && Posted(terms, t, id) :: id in ids
        decreases range
      {
        var t :| t in range;
        assert forall id | id in terms[t] :: Posted(terms, t, id);
        ids := ids + terms[t];
        range := range - {t};
      }
    }

    /** Word `i` is the prefix of no term, and some document has the words before it, if there are any. */
    ghost predicate Stops(words: seq<string>, i: nat)
      requires i < |words|
      reads this
    {
      (forall id :: !PrefixPosted(words[i], id)) && (i > 0 ==> exists id :: AllPrefixPosted(words[..i], id))
    }

    /** Once no document has all the words, no later word stops the search. */
    lemma EmptyGoesOn(words: seq<string>, i: nat)
      requires 0 < i <= |words| && forall id :: !AllPrefixPosted(words[..i], id)
      ensures forall j | i <= j < |words| :: !Stops(words, j)
      ensures forall id :: !AllPrefixPosted(words, id)
    {
      hide PrefixPosted;
      forall id ensures !AllPrefixPosted(words, id) {
        PrefixesHead(words, i, id);
      }
      forall j, id | i <= j < |words| ensures !AllPrefixPosted(words[..j], id) {
        assert words[..j][..i] == words[..i];
        PrefixesHead(words[..j], i, id);
      }
    }

    /** `search_prefix`: the ids having, for each word of the query, a term with that prefix. */
    method SearchPrefix(query: string) returns (r: Option<set<Id>>)
      requires Valid()
      ensures r.None? <==> Words(query) == [] || exists i :: 0 <= i < |Words(query)| && Stops(Words(query), i)
      ensures r.Some? ==> Words(query) != [] && forall id :: id in r.value <==> AllPrefixPosted(Words(query), id)
    {
      hide Tokens, PrefixPosted, AllPrefixPosted;
      var words := Words(query);
      r := None;
      if words == [] {
        return;
      }
      for i := 0 to |words|
        invariant r.None? <==> i == 0
        invariant r.Some? ==> r.value != {} && forall id :: id in r.value <==> AllPrefixPosted(words[..i], id)
        invariant forall j | 0 <= j < i :: !Stops(words, j)
      {
        var ids := RangeIds(words[i]);
        if ids == {} {
          assert forall id :: id !in ids;
          if r.Some? {
            ghost var id :| id in r.value;
            assert AllPrefixPosted(words[..i], id);
          }
          assert Stops(words, i);
          return None;
        }
        if r.Some? {
          var both := r.value * ids;
          forall id ensures id in both <==> AllPrefixPosted(words[..i + 1], id) { PrefixesNext(words, i, id); }
          r := Some(both);
          if r.value == {} {
            ghost var head := words[..i + 1];
            forall id ensures !AllPrefixPosted(head, id) { assert id !in both; }
            EmptyGoesOn(words, i + 1);
            return;
          }
        } else {
          forall id ensures id in ids <==> AllPrefixPosted(words[..i + 1], id) {
            PrefixesNext(words, i, id);
            PrefixesNone(id);
            assert words[..0] == [];
          }
          r := Some(ids);
        }
      }
      assert words[..|words|] == words;
    }

    lemma PrefixesNone(id: Id)
      ensures AllPrefixPosted([], id)
    {
    }
  }

  /** `w` is a maximal alphanumeric run of the lower-cased text, of more than one byte. */
  ghost predicate HasRun(index: Index, text: string, w: string) {
    var s := index.lower(text);
    ByteLen(w) > 1 && exists i: nat, j: nat :: IsRun(index.alnum, s, i, j) && s[i..j] == w
  }

  /** The words the index works with are the runs of the text. */
  lemma WordsAreRuns(index: Index, text: string)
    ensures forall w :: w in index.Words(text) <==> HasRun(index, text, w)
  {
    hide Tokens, IsRun, ByteLen;
    forall w ensures w in index.Words(text) <==> HasRun(index, text, w) {
      TokensExact(index.alnum, index.lower(text), w);
    }
  }

  ghost predicate HasWords(index: Index, query: string) { exists w :: HasRun(index, query, w) }

  /** Every run of the query is a run of the document. */
  ghost predicate HasAll(index: Index, query: string, id: Id)
    reads index
  {
    id in index.docs && forall w | HasRun(index, query, w) :: HasRun(index, index.docs[id], w)
  }

  /** Every run of the query is a prefix of a run of the document. */
  ghost predicate HasAllPrefixes(index: Index, query: string, id: Id)
    reads index
  {
    id in index.docs && forall w | HasRun(index, query, w) :: PrefixToken(index, w, id)
  }

  ghost predicate PrefixToken(index: Index, w: string, id: Id)
    reads index
  {
    id in index.docs && exists t :: w <= t && HasRun(index, index.docs[id], t)
  }

  lemma HasAllPosted(index: Index, query: string, id: Id)
    requires index.Mirrors() && index.Words(query) != []
    ensures HasAll(index, query, id) <==> index.AllPosted(index.Words(query), id)
  {
    hide Tokens, HasRun;
    var words := index.Words(query);
    WordsAreRuns(index, query);
    if id in index.docs { WordsAreRuns(index, index.docs[id]); }
    assert words[0] in words;
    assert index.AllPosted(words, id) ==> Posted(index.terms, words[0], id);
    forall w | w in words && index.AllPosted(words, id) ensures Posted(index.terms, w, id) {
      var k :| 0 <= k < |words| && words[k] == w;
    }
    assert forall k | 0 <= k < |words| :: words[k] in words;
  }

  lemma PrefixTokenPosted(index: Index, w: string, id: Id)
    requires index.Mirrors()
    ensures PrefixToken(index, w, id) <==> index.PrefixPosted(w, id)
  {
    hide Tokens, Posted, HasRun;
    if id in index.docs { WordsAreRuns(index, index.docs[id]); }
    if PrefixToken(index, w, id) {
      var t :| w <= t && HasRun(index, index.docs[id], t);
      assert t in index.Words(index.docs[id]);
      assert Posted(index.terms, t, id);
    }
    if index.PrefixPosted(w, id) {
      var t :| w <= t && Posted(index.terms, t, id);
      assert t in index.Words(index.docs[id]);
    }
  }

  lemma HasAllPrefixesPosted(index: Index, query: string, id: Id)
    requires index.Mirrors() && index.Words(query) != []
    ensures HasAllPrefixes(index, query, id) <==> index.AllPrefixPosted(index.Words(query), id)
  {
    var words := index.Words(query);
    WordsAreRuns(index, query);
    hide HasRun;
    forall w ensures PrefixToken(index, w, id) <==> index.PrefixPosted(w, id) {
      PrefixTokenPosted(index, w, id);
    }
    hide Tokens, Index.PrefixPosted;
    assert words[0] in words;
    assert index.AllPrefixPosted(words, id) ==> PrefixToken(index, words[0], id);
    forall w | w in words && index.AllPrefixPosted(words, id) ensures PrefixToken(index, w, id) {
      var k :| 0 <= k < |words| && words[k] == w;
    }
    assert forall k | 0 <= k < |words| :: words[k] in words;
  }

  lemma SomeWord(index: Index, query: string)
    ensures HasWords(index, query) <==> index.Words(query) != []
  {
    hide Tokens, HasRun;
    WordsAreRuns(index, query);
    if index.Words(query) != [] {
      assert index.Words(query)[0] in index.Words(query);
    }
  }

  /** When the index mirrors the documents, `search` finds exactly those with all query words. */
  method SearchDocs(index: Index, query: string) returns (r: Option<set<Id>>)
    requires index.Valid() && index.Mirrors()
    ensures forall id :: (r.Some? && id in r.value) <==> HasWords(index, query) && HasAll(index, query, id)
  {
    hide Tokens, TermsOk, HasRun;
    SomeWord(index, query);
    r := index.Search(query);
    if index.Words(query) != [] {
      forall id ensures HasAll(index, query, id) <==> index.AllPosted(index.Words(query), id) {
        HasAllPosted(index, query, id);
      }
    }
  }

  /** Likewise for prefixes. */
  method SearchPrefixDocs(index: Index, query: string) returns (r: Option<set<Id>>)
    requires index.Valid() && index.Mirrors()
    ensures forall id :: (r.Some? && id in r.value) <==> HasWords(index, query) && HasAllPrefixes(index, query, id)
  {
    hide Tokens, TermsOk, Index.PrefixPosted, PrefixToken, HasRun;
    SomeWord(index, query);
    r := index.SearchPrefix(query);
    if index.Words(query) != [] {
      forall id ensures HasAllPrefixes(index, query, id) <==> index.AllPrefixPosted(index.Words(query), id) {
        HasAllPrefixesPosted(index, query, id);
      }
      if r.None? {
        ghost var words := index.Words(query);
        ghost var k :| 0 <= k < |words| && index.Stops(words, k);
        assert forall id :: index.AllPrefixPosted(words, id) ==> index.PrefixPosted(words[k], id);
      }
    }
  }

  // ---- Histories ----

  datatype Op = Add(text: string, id: Id) | Drop(text: string, id: Id) | Reset

  /** A document's text is removed before another is inserted. */
  predicate Proper(docs: map<Id, string>, op: Op) {
    op.Reset? || op.id !in docs || docs[op.id] == op.text
  }

  function After(docs: map<Id, string>, ops: seq<Op>): map<Id, string> {
    if ops == [] then docs
    else
      var before := After(docs, ops[..|ops| - 1]);
      match ops[|ops| - 1]
      case Add(text, id) => before[id := text]
      case Drop(_, id) => before - {id}
      case Reset => map[]
  }

  ghost predicate AllProper(docs: map<Id, string>, ops: seq<Op>) {
    forall i | 0 <= i < |ops| :: Proper(After(docs, ops[..i]), ops[i])
  }

  /** After every proper history, the index mirrors the documents it leaves. */
  method Run(index: Index, ops: seq<Op>)
    requires index.Valid() && index.Mirrors() && AllProper(index.docs, ops)
    modifies index
    ensures index.Valid() && index.Mirrors() && index.docs == After(old(index.docs), ops)
  {
    for i := 0 to |ops|
      invariant index.Valid() && index.Mirrors() && index.docs == After(old(index.docs), ops[..i])
    {
      assert Proper(After(old(index.docs), ops[..i]), ops[i]);
      assert ops[..i + 1][..i] == ops[..i];
      hide Tokens, TermsOk, Posted;
      match ops[i]
      case Add(text, id) => index.Insert(text, id);
      case Drop(text, id) => index.Remove(text, id);
      case Reset => index.Clear();
    }
    assert ops[..|ops|] == ops;
  }
}
