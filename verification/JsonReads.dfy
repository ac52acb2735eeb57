/**
 The JSON text of every value, at any nesting, and of every document reads back as the tree
 of what it holds.
 */
module JsonReads {
  import opened Bytes
  import opened Values
  import opened JsonString
  import opened Json
  import opened JsonReference
  import opened JsonReader

  // ---- Texts that read as a tree, whatever follows ----

  predicate Ends(rest: seq<byte>) { rest == [] || rest[0] == 0x2C || rest[0] == 0x5D || rest[0] == 0x7D }

  ghost predicate Reads(text: seq<byte>, tree: Tree) {
    forall rest: seq<byte> | Ends(rest) :: ReadValue(text + rest) == Some((tree, rest))
  }

  lemma ReadsWhole(text: seq<byte>, tree: Tree)
    requires Reads(text, tree)
    ensures ReadText(text) == Some(tree)
  {
    hide ReadValue;
    assert text + [] == text;
    assert ReadValue(text + []) == Some((tree, []));
  }

  lemma ReadsWords()
    ensures Reads(NULL_TEXT, TNull) && Reads(TRUE_TEXT, TBool(true)) && Reads(FALSE_TEXT, TBool(false))
  {
    forall rest: seq<byte> | Ends(rest)
      ensures ReadValue(NULL_TEXT + rest) == Some((TNull, rest)) && ReadValue(TRUE_TEXT + rest) == Some((TBool(true), rest))
      ensures ReadValue(FALSE_TEXT + rest) == Some((TBool(false), rest))
    {
      var n, t, f := NULL_TEXT + rest, TRUE_TEXT + rest, FALSE_TEXT + rest;
      assert NULL_TEXT == [0x6E, 0x75, 0x6C, 0x6C] && TRUE_TEXT == [0x74, 0x72, 0x75, 0x65] && FALSE_TEXT == [0x66, 0x61, 0x6C, 0x73, 0x65];
      assert n[4..] == rest && t[4..] == rest && f[5..] == rest;
      assert n[0] == 0x6E && t[0] == 0x74 && f[0] == 0x66;
    }
  }

  // ---- Numbers ----

  lemma {:induction false} DigitsAppend(a: seq<byte>, b: seq<byte>)
    requires Digits(a) == |a|
    ensures Digits(a + b) == |a| + Digits(b)
  {
    if a == [] {
      assert a + b == b;
    } else {
      DigitsAppend(a[1..], b);
      assert (a + b)[1..] == a[1..] + b;
    }
  }

  lemma {:induction false} NatReads(n: nat)
    ensures var t := NatText(n);
            t != [] && Digits(t) == |t| && Decimal(t) == n && Digit(t[0]) && (t[0] == 0x30 ==> n == 0 && |t| == 1)
  {
    var last: byte := 0x30 + n % 10;
    assert Digits([last]) == 1 by { assert [last][1..] == []; }
    if n < 10 {
      assert NatText(n) == [last] && [last][..0] == [];
    } else {
      var init := NatText(n / 10);
      NatReads(n / 10);
      DigitsAppend(init, [last]);
      assert NatText(n) == init + [last] && (init + [last])[..|init|] == init;
    }
  }

  lemma {:induction false} NumberRun(t: seq<byte>, rest: seq<byte>)
    requires (forall i | 0 <= i < |t| :: NumberByte(t[i])) && Ends(rest)
    ensures NumberLength(t + rest) == |t|
  {
    if t == [] {
      assert t + rest == rest;
    } else {
      NumberRun(t[1..], rest);
      assert (t + rest)[1..] == t[1..] + rest;
    }
  }

  lemma {:induction false} DigitBytes(t: seq<byte>, i: nat)
    requires i < Digits(t)
    ensures Digit(t[i])
  {
    if i > 0 {
      DigitBytes(t[1..], i - 1);
    }
  }

  lemma ExponentBytes(t: seq<byte>, i: nat)
    requires Exponent(t) && i < |t|
    ensures NumberByte(t[i])
  {
    var skip := if |t| > 1 && (t[1] == 0x2B || t[1] == 0x2D) then 2 else 1;
    if i >= skip {
      DigitBytes(t[skip..], i - skip);
    }
  }

  lemma FractionBytes(t: seq<byte>, i: nat)
    requires Fraction(t) && i < |t|
    ensures NumberByte(t[i])
  {
    hide Exponent;
    if t[0] == 0x2E {
      var n := Digits(t[1..]);
      if 0 < i <= n {
        DigitBytes(t[1..], i - 1);
      } else if i > n {
        ExponentBytes(t[1 + n..], i - 1 - n);
      }
    } else {
      ExponentBytes(t, i);
    }
  }

  lemma NumberBytes(t: seq<byte>)
    requires IsNumber(t)
    ensures t != [] && (Digit(t[0]) || t[0] == 0x2D) && forall i | 0 <= i < |t| :: NumberByte(t[i])
  {
    hide Fraction;
    var u, skip := Unsigned(t), if t != [] && t[0] == 0x2D then 1 else 0;
    var n := Digits(u);
    DigitBytes(u, 0);
    forall i | 0 <= i < |t| ensures NumberByte(t[i]) {
      if skip <= i < skip + n {
        DigitBytes(u, i - skip);
      } else if i >= skip + n {
        FractionBytes(u[n..], i - skip - n);
      }
    }
  }

  lemma ReadDigits(t: seq<byte>)
    requires t != [] && (Digit(t[0]) || t[0] == 0x2D)
    ensures var n := NumberLength(t);
            ReadValue(t) == if n > 0 && IsNumber(t[..n]) then Some((NumberTree(t[..n]), t[n..])) else None
  {
    hide IsNumber, NumberTree, NumberLength;
  }

  lemma ReadsNumber(t: seq<byte>)
    requires IsNumber(t)
    ensures Reads(t, NumberTree(t))
  {
    hide IsNumber, NumberTree, ReadValue;
    NumberBytes(t);
    forall rest: seq<byte> | Ends(rest) ensures ReadValue(t + rest) == Some((NumberTree(t), rest)) {
      NumberRun(t, rest);
      var all := t + rest;
      assert all[0] == t[0] && all[..|t|] == t && all[|t|..] == rest;
      ReadDigits(all);
    }
  }

  /** The text of an integer reads as it, with a sign exactly when it is negative. */
  lemma ReadsInt(n: int)
    ensures Reads(IntText(n), TInt(n)) && IntText(n) != [] && (IntText(n)[0] == 0x2D <==> n < 0)
  {
    var t := IntText(n);
    NatReads(if n < 0 then -n else n);
    hide NatText;
    var u := NatText(if n < 0 then -n else n);
    assert n < 0 ==> t[0] == 0x2D && t[1..] == u;
    assert Unsigned(t) == u;
    assert u[|u|..] == [];
    ReadsNumber(t);
  }

  lemma ReadsFloat(ff: FloatText, bits: u64)
    requires Renders(ff)
    ensures Reads(ff(bits), TreeOf(Float(bits), ff))
  {
    hide IsNumber, Reads, NumberTree;
    if IsNull(ff(bits)) {
      ReadsWords();
      assert NULL_TEXT == ff(bits);
    } else {
      ReadsNumber(ff(bits));
    }
  }

  // ---- Strings ----

  lemma PlainByte(b: byte, rest: seq<byte>)
    requires b != 0x22 && b != 0x5C
    ensures StringEnd([b] + rest) == match StringEnd(rest) case None => None case Some(n) => Some(n + 1)
  {
    assert ([b] + rest)[1..] == rest;
  }

  lemma BackslashPair(b: byte, rest: seq<byte>)
    ensures StringEnd([0x5C, b] + rest) == match StringEnd(rest) case None => None case Some(n) => Some(n + 2)
  {
    assert ([0x5C, b] + rest)[2..] == rest;
  }

  lemma EscapedByte(b: byte, rest: seq<byte>)
    ensures StringEnd(EscapeByte(b) + rest) == match StringEnd(rest) case None => None case Some(n) => Some(n + |EscapeByte(b)|)
  {
    var e := EscapeByte(b);
    hide StringEnd;
    if |e| == 1 {
      PlainByte(b, rest);
    } else if |e| == 2 {
      BackslashPair(e[1], rest);
    } else {
      var r4 := [e[5]] + rest;
      var r3 := [e[4]] + r4;
      var r2 := [e[3]] + r3;
      PlainByte(e[5], rest);
      PlainByte(e[4], r4);
      PlainByte(e[3], r3);
      PlainByte(e[2], r2);
      BackslashPair(e[1], [e[2]] + r2);
      assert e + rest == [0x5C, e[1]] + ([e[2]] + r2);
    }
  }

  lemma {:induction false} EscapedEnd(s: Str, rest: seq<byte>)
    ensures StringEnd(Escape(s) + ([0x22] + rest)) == Some(|Escape(s)|)
  {
    hide EscapeByte;
    if s == [] {
      assert Escape(s) + ([0x22] + rest) == [0x22] + rest;
    } else {
      hide StringEnd;
      var tail := Escape(s[1..]) + ([0x22] + rest);
      EscapedEnd(s[1..], rest);
      EscapedByte(s[0], tail);
      assert Escape(s) + ([0x22] + rest) == EscapeByte(s[0]) + tail;
    }
  }

  lemma ReadEscaped(s: Str, rest: seq<byte>)
    ensures ReadString(Escape(s) + ([0x22] + rest)) == Some((s, rest))
  {
    EscapedEnd(s, rest);
    UnescapeInverts(s);
    hide Escape, Unescape, StringEnd;
    var t, n := Escape(s) + ([0x22] + rest), |Escape(s)|;
    assert t[..n] == Escape(s) && t[n + 1..] == rest;
  }

  lemma StringSplit(s: Str, rest: seq<byte>)
    ensures var t := StringText(s) + rest; t != [] && t[0] == 0x22 && t[1..] == Escape(s) + ([0x22] + rest)
  {
    hide Escape;
  }

  lemma ReadQuote(t: seq<byte>)
    requires t != [] && t[0] == 0x22
    ensures ReadValue(t) == match ReadString(t[1..]) case None => None case Some((s, rest)) => Some((TString(s), rest))
  {
    hide ReadString;
  }

  lemma ReadsString(s: Str)
    ensures Reads(StringText(s), TString(s))
  {
    hide StringText, ReadString, Escape, ReadValue;
    forall rest: seq<byte> | Ends(rest) ensures ReadValue(StringText(s) + rest) == Some((TString(s), rest)) {
      StringSplit(s, rest);
      ReadEscaped(s, rest);
      ReadQuote(StringText(s) + rest);
    }
  }

  // ---- Arrays ----

  ghost predicate AllRead(texts: seq<seq<byte>>, trees: seq<Tree>) {
    |texts| == |trees| && forall i | 0 <= i < |texts| :: Reads(texts[i], trees[i])
  }

  lemma ReadsHere(text: seq<byte>, tree: Tree, rest: seq<byte>)
    requires Reads(text, tree) && Ends(rest)
    ensures ReadValue(text + rest) == Some((tree, rest))
  {
    hide ReadValue;
  }

  lemma {:induction false} ReadCommas(texts: seq<seq<byte>>, trees: seq<Tree>, rest: seq<byte>)
    requires AllRead(texts, trees) && texts != []
    ensures ReadItems(Commas(texts) + ([0x5D] + rest)) == Some((trees, rest))
  {
    hide ReadValue, Reads;
    var close := [0x5D] + rest;
    if |texts| == 1 {
      ReadsHere(texts[0], trees[0], close);
      assert close[1..] == rest && trees == [trees[0]];
    } else {
      var more := Commas(texts[1..]) + close;
      ReadCommas(texts[1..], trees[1..], rest);
      var sep := [0x2C] + more;
      assert Commas(texts) + close == texts[0] + sep;
      ReadsHere(texts[0], trees[0], sep);
      assert sep[1..] == more && trees == [trees[0]] + trees[1..];
    }
  }

  lemma NotClosing(t: seq<byte>)
    requires t != [] && (t[0] == 0x5D || t[0] == 0x7D)
    ensures ReadValue(t) == None
  {
    assert NumberLength(t) == 0;
  }

  /** A value never starts with a closing bracket. */
  lemma FirstByte(text: seq<byte>, tree: Tree)
    requires Reads(text, tree)
    ensures text != [] && text[0] != 0x5D && text[0] != 0x7D
  {
    assert ReadValue(text + []) == Some((tree, [])) && text + [] == text;
    if text != [] && (text[0] == 0x5D || text[0] == 0x7D) {
      NotClosing(text);
    }
  }

  lemma CommasFirst(texts: seq<seq<byte>>)
    requires texts != [] && texts[0] != []
    ensures Commas(texts) != [] && Commas(texts)[0] == texts[0][0]
  {
  }

  lemma ReadBracket(t: seq<byte>)
    requires |t| > 1 && t[0] == 0x5B
    ensures ReadValue(t) ==
            if t[1] == 0x5D then Some((TArray([]), t[2..]))
            else match ReadItems(t[1..]) case None => None case Some((items, rest)) => Some((TArray(items), rest))
  {
    hide ReadItems;
  }

  lemma ArraySplit(texts: seq<seq<byte>>, rest: seq<byte>)
    ensures var t := ArrayText(texts) + rest; |t| > 1 && t[0] == 0x5B && t[1..] == Commas(texts) + ([0x5D] + rest)
  {
    hide Commas;
  }

  lemma ReadsArray(texts: seq<seq<byte>>, trees: seq<Tree>)
    requires AllRead(texts, trees)
    ensures Reads(ArrayText(texts), TArray(trees))
  {
    hide ArrayText, Commas, ReadItems, ReadValue;
    forall rest: seq<byte> | Ends(rest) ensures ReadValue(ArrayText(texts) + rest) == Some((TArray(trees), rest)) {
      var t := ArrayText(texts) + rest;
      ArraySplit(texts, rest);
      ReadBracket(t);
      if texts == [] {
        NoCommas();
        assert t[1..] == [0x5D] + rest && t[2..] == rest;
      } else {
        FirstByte(texts[0], trees[0]);
        CommasFirst(texts);
        ReadCommas(texts, trees, rest);
        assert t[1] == t[1..][0];
      }
    }
  }

  lemma NoCommas()
    ensures Commas([]) == []
  {
  }

  // ---- Objects ----

  ghost predicate EntriesRead(entries: seq<Entry>, pairs: seq<Pair>) {
    |entries| == |pairs| && forall i | 0 <= i < |entries| :: entries[i].key == pairs[i].key && Reads(entries[i].text, pairs[i].value)
  }

  lemma MemberSplit(e: Entry, rest: seq<byte>)
    ensures var t := MemberText(e) + rest; t != [] && t[0] == 0x22 && t[1..] == Escape(e.key) + ([0x22] + ([0x3A] + (e.text + rest)))
  {
    hide Escape;
    StringSplit(e.key, [0x3A] + (e.text + rest));
    assert MemberText(e) + rest == StringText(e.key) + ([0x3A] + (e.text + rest));
  }

  /** One member, and what stands behind it. */
  lemma ReadMember(e: Entry, p: Pair, rest: seq<byte>)
    requires e.key == p.key && Reads(e.text, p.value) && rest != [] && (rest[0] == 0x2C || rest[0] == 0x7D)
    ensures ReadMembers(MemberText(e) + rest) ==
            if rest[0] == 0x7D then Some(([p], rest[1..]))
            else match ReadMembers(rest[1..]) case None => None case Some((ms, end)) => Some(([p] + ms, end))
  {
    MemberSplit(e, rest);
    var mid := [0x3A] + (e.text + rest);
    ReadEscaped(e.key, mid);
    ReadsHere(e.text, p.value, rest);
    hide MemberText, ReadString, ReadValue, Escape, Reads;
    assert mid[1..] == e.text + rest;
  }

  lemma {:induction false} ReadMemberList(entries: seq<Entry>, pairs: seq<Pair>, rest: seq<byte>)
    requires EntriesRead(entries, pairs) && entries != []
    ensures ReadMembers(Commas(Members(entries)) + ([0x7D] + rest)) == Some((pairs, rest))
  {
    hide ReadMembers, Reads, MemberText;
    var close := [0x7D] + rest;
    if |entries| == 1 {
      ReadMember(entries[0], pairs[0], close);
      assert close[1..] == rest && pairs == [pairs[0]];
    } else {
      var more := Commas(Members(entries[1..])) + close;
      ReadMemberList(entries[1..], pairs[1..], rest);
      assert Members(entries)[1..] == Members(entries[1..]);
      var sep := [0x2C] + more;
      assert Commas(Members(entries)) + close == MemberText(entries[0]) + sep;
      ReadMember(entries[0], pairs[0], sep);
      assert sep[1..] == more && pairs == [pairs[0]] + pairs[1..];
    }
  }

  lemma ReadBrace(t: seq<byte>)
    requires |t| > 1 && t[0] == 0x7B
    ensures ReadValue(t) ==
            if t[1] == 0x7D then Some((TObject([]), t[2..]))
            else match ReadMembers(t[1..]) case None => None case Some((members, rest)) => Some((TObject(members), rest))
  {
    hide ReadMembers;
  }

  lemma ObjectSplit(entries: seq<Entry>, rest: seq<byte>)
    ensures var t := ObjectText(entries) + rest; |t| > 1 && t[0] == 0x7B && t[1..] == Commas(Members(entries)) + ([0x7D] + rest)
  {
    hide Commas, Members;
  }

  lemma MemberQuote(e: Entry)
    ensures MemberText(e) != [] && MemberText(e)[0] == 0x22
  {
    hide Escape;
  }

  lemma ReadsObject(entries: seq<Entry>, pairs: seq<Pair>)
    requires EntriesRead(entries, pairs)
    ensures Reads(ObjectText(entries), TObject(pairs))
  {
    hide ObjectText, Commas, ReadMembers, ReadValue, MemberText;
    forall rest: seq<byte> | Ends(rest) ensures ReadValue(ObjectText(entries) + rest) == Some((TObject(pairs), rest)) {
      var t := ObjectText(entries) + rest;
      ObjectSplit(entries, rest);
      ReadBrace(t);
      if entries == [] {
        NoCommas();
        assert Members([]) == [] && t[1..] == [0x7D] + rest && t[2..] == rest;
      } else {
        MemberQuote(entries[0]);
        CommasFirst(Members(entries));
        ReadMemberList(entries, pairs, rest);
        assert t[1] == t[1..][0];
      }
    }
  }

  // ---- Values ----

  lemma {:induction false} PlaceRead(sorted: seq<Entry>, e: Entry, pairs: seq<Pair>, p: Pair)
    requires EntriesRead(sorted, pairs) && e.key == p.key && Reads(e.text, p.value)
    ensures EntriesRead(InsertEntry(sorted, e), Place(pairs, p))
  {
    hide Reads, CompareBytes;
    if sorted != [] && CompareBytes(e.key, sorted[0].key) != Less {
      PlaceRead(sorted[1..], e, pairs[1..], p);
    }
  }

  lemma {:induction false} ArrangedRead(sorted: seq<Entry>, entries: seq<Entry>, done: seq<Pair>, pairs: seq<Pair>)
    requires EntriesRead(sorted, done) && EntriesRead(entries, pairs)
    ensures EntriesRead(InsertAll(sorted, entries), Arranged(done, pairs))
    decreases entries
  {
    hide Reads, InsertEntry, Place;
    if entries != [] {
      PlaceRead(sorted, entries[0], done, pairs[0]);
      ArrangedRead(InsertEntry(sorted, entries[0]), entries[1..], Place(done, pairs[0]), pairs[1..]);
    }
  }

  lemma {:induction false} FieldsRead(fields: seq<Field>, ff: FloatText)
    requires forall f | f in fields :: Reads(JsonValue(f.value, ff), TreeOf(f.value, ff))
    ensures EntriesRead(JsonEntries(fields, ff), PairsOf(fields, ff))
  {
    hide Reads, JsonValue, TreeOf;
    if fields != [] {
      FieldsRead(fields[1..], ff);
    }
  }

  lemma {:induction false} ItemsRead(items: seq<Value>, ff: FloatText)
    requires forall x | x in items :: Reads(JsonValue(x, ff), TreeOf(x, ff))
    ensures AllRead(JsonItems(items, ff), TreesOf(items, ff))
  {
    hide Reads, JsonValue, TreeOf;
    if items != [] {
      ItemsRead(items[1..], ff);
    }
  }

  lemma BytesRead(bytes: seq<byte>, ff: FloatText)
    ensures Reads(ArrayText(ByteTexts(bytes)), TreeOf(Binary(bytes), ff))
  {
    hide Reads, IntText, ArrayText;
    var trees := seq(|bytes|, i requires 0 <= i < |bytes| => TInt(bytes[i]));
    forall i | 0 <= i < |bytes| ensures Reads(ByteTexts(bytes)[i], trees[i]) {
      ReadsInt(bytes[i]);
    }
    ReadsArray(ByteTexts(bytes), trees);
  }

  lemma ReferenceRead(c: Str, d: Str, ff: FloatText)
    ensures Reads(ReferenceText(c, d), TreeOf(Reference(c, d), ff))
  {
    hide Reads, StringText, ReferenceText, ObjectText;
    var s := c + [0x2F] + d;
    ReadsString(s);
    assert REF_KEY == [0x5F, 0x5F, 0x72, 0x65, 0x66, 0x5F, 0x5F];
    ReferenceObject(c, d);
    ReadsObject([Entry(REF_KEY, StringText(s))], [Pair(REF_KEY, TString(s))]);
  }

  /** Escaping the two parts under one pair of quotes is escaping the joined string. */
  lemma ReferenceObject(c: Str, d: Str)
    ensures ReferenceText(c, d) == ObjectText([Entry(REF_KEY, StringText(c + [0x2F] + d))])
  {
    hide Escape, Ascii;
    EscapeAppend(c + [0x2F], d);
    EscapeAppend(c, [0x2F]);
    SlashIsClean();
    var e := Entry(REF_KEY, StringText(c + [0x2F] + d));
    assert Members([e]) == [MemberText(e)];
  }

  lemma BlobRead(offset: u64, len: u32, ff: FloatText)
    ensures Reads(BlobText(offset, len), TreeOf(BlobLink(offset, len), ff))
  {
    hide Reads, ObjectText, IntText;
    ReadsInt(offset);
    ReadsInt(len);
    assert BLOB_KEY == [0x5F, 0x5F, 0x62, 0x6C, 0x6F, 0x62, 0x5F, 0x5F];
    assert LEN_KEY == [0x6C, 0x65, 0x6E] && OFFSET_KEY == [0x6F, 0x66, 0x66, 0x73, 0x65, 0x74];
    var entries := [Entry(LEN_KEY, IntText(len)), Entry(OFFSET_KEY, IntText(offset))];
    var pairs := [Pair(LEN_KEY, TInt(len)), Pair(OFFSET_KEY, TInt(offset))];
    ReadsObject(entries, pairs);
    ReadsObject([Entry(BLOB_KEY, ObjectText(entries))], [Pair(BLOB_KEY, TObject(pairs))]);
  }

  /** The text of every value, at any nesting, reads as the tree of what the value holds. */
  lemma {:induction false} ValueReads(v: Value, ff: FloatText)
    requires Renders(ff)
    ensures Reads(JsonValue(v, ff), TreeOf(v, ff))
  {
    hide Reads, Renders, IntText, ArrayText, ObjectText, StringText, BlobText, ReferenceText, InsertAll, Arranged, NumberTree;
    match v
    case Map(fields) =>
      forall f | f in fields ensures Reads(JsonValue(f.value, ff), TreeOf(f.value, ff)) { ValueReads(f.value, ff); }
      FieldsRead(fields, ff);
      MapReads(fields, ff);
    case Array(items) =>
      forall x | x in items ensures Reads(JsonValue(x, ff), TreeOf(x, ff)) { ValueReads(x, ff); }
      ItemsRead(items, ff);
      ReadsArray(JsonItems(items, ff), TreesOf(items, ff));
    case Float(bits) => ReadsFloat(ff, bits);
    case String(s) => ReadsString(s);
    case Binary(bytes) => BytesRead(bytes, ff);
    case Int(i) => ReadsInt(i);
    case Timestamp(micros) => ReadsInt(micros);
    case Reference(c, d) => ReferenceRead(c, d, ff);
    case BlobLink(offset, len) => BlobRead(offset, len, ff);
    case _ => ReadsWords();
  }

  lemma MapReads(fields: seq<Field>, ff: FloatText)
    requires EntriesRead(JsonEntries(fields, ff), PairsOf(fields, ff))
    ensures Reads(ObjectText(SortEntries(JsonEntries(fields, ff))), TObject(Arranged([], PairsOf(fields, ff))))
  {
    hide Reads, JsonEntries, PairsOf, ObjectText, InsertAll, Arranged;
    ArrangedRead([], JsonEntries(fields, ff), [], PairsOf(fields, ff));
    ReadsObject(SortEntries(JsonEntries(fields, ff)), Arranged([], PairsOf(fields, ff)));
  }

  // ---- Documents ----

  function Lookup(pairs: seq<Pair>, key: Str): Option<Tree> {
    if pairs == [] then None else if pairs[0].key == key then Some(pairs[0].value) else Lookup(pairs[1..], key)
  }

  /** The member of a document's object under a key. */
  function DocMember(doc: HakoDoc, ff: FloatText, key: Str): Option<Tree> {
    match Find(doc.fields, key)
    case Some(v) => Some(TreeOf(v, ff))
    case None => if key == [0x5F, 0x74, 0x69, 0x6D, 0x65] then Some(TInt(doc.time)) else None
  }

  /** The pairs with the time in place, as the emitter merges it. */
  function Merged(pairs: seq<Pair>, time: int, written: bool): seq<Pair> {
    var stamp := Pair(TIME_KEY, TInt(time));
    if pairs == [] then (if written then [] else [stamp])
    else if !written && CompareBytes(pairs[0].key, TIME_KEY) == Greater then [stamp, pairs[0]] + Merged(pairs[1..], time, true)
    else [pairs[0]] + Merged(pairs[1..], time, written || pairs[0].key == TIME_KEY)
  }

  lemma {:induction false} MergedRead(entries: seq<Entry>, pairs: seq<Pair>, time: i64, written: bool)
    requires EntriesRead(entries, pairs)
    ensures EntriesRead(MergeTime(entries, time, written), Merged(pairs, time, written))
  {
    hide Reads, CompareBytes, IntText, Ascii;
    ReadsInt(time);
    if entries != [] {
      MergedRead(entries[1..], pairs[1..], time, true);
      MergedRead(entries[1..], pairs[1..], time, written || entries[0].key == TIME_KEY);
    }
  }

  predicate StrictOrder(pairs: seq<Pair>) {
    forall i, j | 0 <= i < j < |pairs| :: CompareBytes(pairs[i].key, pairs[j].key) == Less
  }

  lemma {:induction false} MergedWritten(pairs: seq<Pair>, time: int)
    ensures Merged(pairs, time, true) == pairs
  {
    if pairs != [] {
      MergedWritten(pairs[1..], time);
    }
  }

  lemma {:induction false} NoLookup(pairs: seq<Pair>, key: Str)
    requires forall p | p in pairs :: p.key != key
    ensures Lookup(pairs, key) == None
  {
    if pairs != [] {
      NoLookup(pairs[1..], key);
    }
  }

  lemma StrictFront(p: Pair, rest: seq<Pair>)
    requires StrictOrder(rest) && forall x | x in rest :: CompareBytes(p.key, x.key) == Less
    ensures StrictOrder([p] + rest)
  {
    hide CompareBytes;
  }

  lemma StrictRest(first: Pair, rest: seq<Pair>)
    requires StrictOrder([first] + rest)
    ensures StrictOrder(rest) && forall x | x in rest :: CompareBytes(first.key, x.key) == Less
  {
    hide CompareBytes;
    var all := [first] + rest;
    assert forall i | 0 <= i < |rest| :: rest[i] == all[i + 1];
    forall x | x in rest ensures CompareBytes(first.key, x.key) == Less {
      var i :| 0 <= i < |rest| && rest[i] == x;
      assert all[i + 1] == x && all[0] == first;
    }
  }

  lemma LookupFront(p: Pair, rest: seq<Pair>, key: Str)
    ensures Lookup([p] + rest, key) == if p.key == key then Some(p.value) else Lookup(rest, key)
  {
    assert ([p] + rest)[1..] == rest;
  }

  lemma MergedCases(pairs: seq<Pair>, time: int)
    requires pairs != []
    ensures Merged(pairs, time, false) ==
            if CompareBytes(pairs[0].key, TIME_KEY) == Greater then [Pair(TIME_KEY, TInt(time))] + pairs
            else if pairs[0].key == TIME_KEY then pairs
            else [pairs[0]] + Merged(pairs[1..], time, false)
  {
    hide CompareBytes, Ascii;
    MergedWritten(pairs[1..], time);
    assert pairs == [pairs[0]] + pairs[1..];
  }

  lemma MergedNone(time: int)
    ensures Merged([], time, false) == [Pair(TIME_KEY, TInt(time))] + []
  {
  }

  /** From the first greater key on, all keys are greater. */
  lemma AllGreater(pairs: seq<Pair>)
    requires StrictOrder(pairs) && pairs != [] && CompareBytes(pairs[0].key, TIME_KEY) == Greater
    ensures forall x | x in pairs :: CompareBytes(TIME_KEY, x.key) == Less && x.key != TIME_KEY
  {
    hide CompareBytes, Ascii, StrictOrder;
    var first, rest := pairs[0], pairs[1..];
    assert pairs == [first] + rest;
    StrictRest(first, rest);
    CompareBytesOrder(first.key, TIME_KEY);
    forall x | x in pairs ensures CompareBytes(TIME_KEY, x.key) == Less && x.key != TIME_KEY {
      if x != first { CompareBytesTransitive(TIME_KEY, first.key, x.key); }
      CompareBytesOrder(TIME_KEY, x.key);
    }
  }

  /** Merging the time keeps the order. */
  lemma {:induction false} MergedOrder(pairs: seq<Pair>, time: int)
    requires StrictOrder(pairs)
    ensures StrictOrder(Merged(pairs, time, false))
    ensures forall p | p in Merged(pairs, time, false) :: p in pairs || p.key == TIME_KEY
  {
    hide CompareBytes, Ascii, StrictOrder, Merged;
    var stamp := Pair(TIME_KEY, TInt(time));
    if pairs == [] {
      MergedNone(time);
      StrictFront(stamp, []);
    } else {
      var first, rest := pairs[0], pairs[1..];
      assert pairs == [first] + rest;
      MergedCases(pairs, time);
      if CompareBytes(first.key, TIME_KEY) == Greater {
        AllGreater(pairs);
        StrictFront(stamp, pairs);
      } else if first.key != TIME_KEY {
        StrictRest(first, rest);
        MergedOrder(rest, time);
        CompareBytesOrder(first.key, TIME_KEY);
        StrictFront(first, Merged(rest, time, false));
      }
    }
  }

  /** It adds the time where no pair has its name, and changes nothing else. */
  lemma {:induction false} MergedLookup(pairs: seq<Pair>, time: int, key: Str)
    requires StrictOrder(pairs)
    ensures Lookup(Merged(pairs, time, false), key) ==
            if key == TIME_KEY && Lookup(pairs, TIME_KEY).None? then Some(TInt(time)) else Lookup(pairs, key)
  {
    hide CompareBytes, Ascii, StrictOrder, Merged, Lookup;
    var stamp := Pair(TIME_KEY, TInt(time));
    if pairs == [] {
      MergedNone(time);
      LookupFront(stamp, [], key);
      NoLookup([], key);
    } else {
      var first, rest := pairs[0], pairs[1..];
      assert pairs == [first] + rest;
      MergedCases(pairs, time);
      LookupFront(first, rest, key);
      LookupFront(first, rest, TIME_KEY);
      if CompareBytes(first.key, TIME_KEY) == Greater {
        AllGreater(pairs);
        NoLookup(pairs, TIME_KEY);
        LookupFront(stamp, pairs, key);
      } else if first.key != TIME_KEY {
        StrictRest(first, rest);
        MergedLookup(rest, time, key);
        LookupFront(first, Merged(rest, time, false), key);
      }
    }
  }

  lemma {:induction false} PairsFind(fields: seq<Field>, ff: FloatText, key: Str)
    ensures Lookup(PairsOf(fields, ff), key) == match Find(fields, key) case None => None case Some(v) => Some(TreeOf(v, ff))
    ensures forall i | 0 <= i < |fields| :: PairsOf(fields, ff)[i].key == fields[i].key
  {
    hide TreeOf;
    if fields != [] {
      PairsFind(fields[1..], ff, key);
    }
  }

  /**
   The JSON of a document reads as an object with its keys in strict order: every field with the
   tree of its value, and the time under `_time` unless a field has that name.
   */
  lemma DocReads(doc: HakoDoc, ff: FloatText) returns (members: seq<Pair>)
    requires Renders(ff) && SortedKeys(doc.fields)
    ensures ReadText(JsonDoc(doc, ff)) == Some(TObject(members))
    ensures StrictOrder(members) && forall key: Str :: Lookup(members, key) == DocMember(doc, ff, key)
  {
    hide Reads, JsonValue, TreeOf, ObjectText, MergeTime, Merged, Ascii, CompareBytes, Renders, Find, JsonEntries, PairsOf, ReadText, Lookup;
    var pairs := PairsOf(doc.fields, ff);
    forall f | f in doc.fields ensures Reads(JsonValue(f.value, ff), TreeOf(f.value, ff)) { ValueReads(f.value, ff); }
    FieldsRead(doc.fields, ff);
    MergedRead(JsonEntries(doc.fields, ff), pairs, doc.time, false);
    members := Merged(pairs, doc.time, false);
    ReadsObject(MergeTime(JsonEntries(doc.fields, ff), doc.time, false), members);
    ReadsWhole(JsonDoc(doc, ff), TObject(members));
    PairsFind(doc.fields, ff, []);
    MergedOrder(pairs, doc.time);
    TimeKey();
    forall key: Str ensures Lookup(members, key) == DocMember(doc, ff, key) {
      MergedLookup(pairs, doc.time, key);
      PairsFind(doc.fields, ff, key);
      PairsFind(doc.fields, ff, TIME_KEY);
    }
  }

  lemma TimeKey()
    ensures TIME_KEY == [0x5F, 0x74, 0x69, 0x6D, 0x65]
  {
  }
}
