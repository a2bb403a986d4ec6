/** cJSON_Minify: what it does to a text, that it commutes with printing, and the loop that does it in place. */
module JsonMinify {
  import opened JsonText
  import opened JsonParse
  import opened JsonRoundTrip

  /** Overrun: a literal or a block comment is not closed and the read pointer passes the terminating NUL. */
  datatype Minified = Minified(text: Bytes) | Overrun

  function Cat(a: Bytes, rest: Minified): Minified {
    match rest
    case Minified(b) => Minified(a + b)
    case Overrun => Overrun
  }

  predicate IsSpace(c: Byte) {
    c == SPACE || c == TAB || c == RETURN || c == NEWLINE
  }

  /** The next newline, or the end of the text. */
  function LineEnd(t: Bytes, i: nat): (j: nat)
    requires i <= |t|
    ensures i <= j <= |t|
    decreases |t| - i
  {
    if i < |t| && t[i] != NEWLINE then LineEnd(t, i + 1) else i
  }

  /** The next star with a slash after it, or the end of the text. */
  function CommentEnd(t: Bytes, i: nat): (j: nat)
    requires i <= |t|
    ensures i <= j <= |t| && (j < |t| ==> j + 2 <= |t|)
    decreases |t| - i
  {
    if i < |t| && !(t[i] == STAR && At(t, i + 1) == SLASH) then CommentEnd(t, i + 1) else i
  }

  /** What is left of the text from position i on, outside literals. */
  function MinifyFrom(t: Bytes, i: nat): (r: Minified)
    requires i <= |t|
    decreases |t| - i, 1
  {
    if i == |t| then Minified([])
    else if IsSpace(t[i]) then MinifyFrom(t, i + 1)
    else if t[i] == SLASH && At(t, i + 1) == SLASH then
      var j := LineEnd(t, i + 2);
      MinifyFrom(t, j)
    else if t[i] == SLASH && At(t, i + 1) == STAR then
      var j := CommentEnd(t, i + 1);
      if j == |t| then Overrun else MinifyFrom(t, j + 2)
    else if t[i] == QUOTE then Cat([QUOTE], LiteralFrom(t, i + 1))
    else Cat([t[i]], MinifyFrom(t, i + 1))
  }

  /** The same from inside a literal. */
  function LiteralFrom(t: Bytes, i: nat): (r: Minified)
    requires i <= |t|
    decreases |t| - i, 0
  {
    if i == |t| then Overrun
    else if t[i] == QUOTE then Cat([QUOTE], MinifyFrom(t, i + 1))
    else if t[i] == BACKSLASH then
      if i + 1 == |t| then Overrun else Cat(t[i..i + 2], LiteralFrom(t, i + 2))
    else Cat([t[i]], LiteralFrom(t, i + 1))
  }

  lemma CatCat(a: Bytes, b: Bytes, rest: Minified)
    ensures Cat(a, Cat(b, rest)) == Cat(a + b, rest)
  {
    if rest.Minified? {
      assert a + (b + rest.text) == a + b + rest.text;
    }
  }

  lemma CatNothing(rest: Minified)
    ensures Cat([], rest) == rest
  {
    if rest.Minified? {
      assert [] + rest.text == rest.text;
    }
  }

  // ------------------------------------------------------------------------- printed text

  /** Reading what stands between i and j leaves w of it. */
  ghost predicate Leaves(t: Bytes, i: nat, j: nat, w: Bytes) {
    i <= j <= |t| && MinifyFrom(t, i) == Cat(w, MinifyFrom(t, j))
  }

  lemma LeavesBoth(t: Bytes, i: nat, j: nat, k: nat, a: Bytes, b: Bytes)
    requires Leaves(t, i, j, a) && Leaves(t, j, k, b)
    ensures Leaves(t, i, k, a + b)
  {
    CatCat(a, b, MinifyFrom(t, k));
  }

  /** Bytes that are copied outside literals. */
  predicate Copied(c: Byte) {
    !IsSpace(c) && c != SLASH && c != QUOTE
  }

  lemma LeavesByte(t: Bytes, i: nat, j: nat, c: Byte)
    requires Copied(c) && Spans(t, i, j, [c])
    ensures Leaves(t, i, j, [c])
  {
    ByteAt(t, i, j, c);
  }

  lemma {:induction false} LeavesCopied(t: Bytes, i: nat, j: nat, w: Bytes)
    requires Spans(t, i, j, w) && forall k :: 0 <= k < |w| ==> Copied(w[k])
    ensures Leaves(t, i, j, w)
    decreases |w|
  {
    if w == [] {
      CatNothing(MinifyFrom(t, i));
    } else {
      assert w == [w[0]] + w[1..];
      var k := Split2(t, i, j, [w[0]], w[1..]);
      LeavesByte(t, i, k, w[0]);
      LeavesCopied(t, k, j, w[1..]);
      LeavesBoth(t, i, k, j, [w[0]], w[1..]);
    }
  }

  lemma {:induction false} LeavesNothing(t: Bytes, i: nat, j: nat, ws: Bytes)
    requires Spans(t, i, j, ws) && forall k :: 0 <= k < |ws| ==> IsSpace(ws[k])
    ensures Leaves(t, i, j, [])
    decreases |ws|
  {
    CatNothing(MinifyFrom(t, j));
    if ws != [] {
      assert ws == [ws[0]] + ws[1..];
      var k := Split2(t, i, j, [ws[0]], ws[1..]);
      ByteAt(t, i, k, ws[0]);
      LeavesNothing(t, k, j, ws[1..]);
    }
  }

  /** An escape inside a literal is copied. */
  lemma LiteralByte(t: Bytes, i: nat, j: nat, c: Byte)
    requires c != 0 && Spans(t, i, j, EscapeByte(c))
    ensures j <= |t| && LiteralFrom(t, i) == Cat(EscapeByte(c), LiteralFrom(t, j))
  {
    var e := EscapeByte(c);
    assert t[i..j] == e;
    assert forall k :: 0 <= k < |e| ==> t[i + k] == t[i..j][k] == e[k];
    if |e| == 1 {
      assert Plain(c) && t[i] == c && j == i + 1 <= |t|;
      assert LiteralFrom(t, i) == Cat([t[i]], LiteralFrom(t, i + 1));
    } else if |e| == 2 {
      assert t[i..i + 2] == e;
    } else {
      LiteralUnicode(t, i, j, e);
    }
  }

  lemma LiteralUnicode(t: Bytes, i: nat, j: nat, e: Bytes)
    requires |e| == 6 && Spans(t, i, j, e) && e[0] == BACKSLASH
    requires forall k :: 2 <= k < 6 ==> e[k] != QUOTE && e[k] != BACKSLASH
    ensures j <= |t| && LiteralFrom(t, i) == Cat(e, LiteralFrom(t, j))
  {
    var rest := LiteralFrom(t, i + 6);
    assert forall k :: 0 <= k < 6 ==> t[i + k] == t[i..j][k] == e[k];
    assert LiteralFrom(t, i) == Cat(t[i..i + 2], LiteralFrom(t, i + 2));
    assert LiteralFrom(t, i + 2) == Cat([e[2]], LiteralFrom(t, i + 3));
    assert LiteralFrom(t, i + 3) == Cat([e[3]], LiteralFrom(t, i + 4));
    assert LiteralFrom(t, i + 4) == Cat([e[4]], LiteralFrom(t, i + 5));
    assert LiteralFrom(t, i + 5) == Cat([e[5]], rest);
    hide LiteralFrom;
    CatCat([e[4]], [e[5]], rest);
    CatCat([e[3]], [e[4]] + [e[5]], rest);
    CatCat([e[2]], [e[3]] + ([e[4]] + [e[5]]), rest);
    CatCat(t[i..i + 2], [e[2]] + ([e[3]] + ([e[4]] + [e[5]])), rest);
    assert e == t[i..i + 2] + ([e[2]] + ([e[3]] + ([e[4]] + [e[5]])));
  }

  lemma {:induction false} LiteralBytes(s: Bytes, t: Bytes, i: nat, j: nat)
    requires NulFree(s) && Spans(t, i, j, Escape(s))
    ensures j <= |t| && LiteralFrom(t, i) == Cat(Escape(s), LiteralFrom(t, j))
  {
    if s == [] {
      CatNothing(LiteralFrom(t, j));
    } else {
      var k := Split2(t, i, j, EscapeByte(s[0]), Escape(s[1..]));
      hide EscapeByte;
      LiteralByte(t, i, k, s[0]);
      LiteralBytes(s[1..], t, k, j);
      CatCat(EscapeByte(s[0]), Escape(s[1..]), LiteralFrom(t, j));
    }
  }

  lemma LeavesString(s: Bytes, t: Bytes, i: nat, j: nat)
    requires NulFree(s) && Spans(t, i, j, PrintString(s))
    ensures Leaves(t, i, j, PrintString(s))
  {
    var k, l := Split3(t, i, j, [QUOTE], Escape(s), [QUOTE]);
    ByteAt(t, i, k, QUOTE);
    ByteAt(t, l, j, QUOTE);
    LiteralBytes(s, t, k, l);
    hide Escape;
    CatCat(Escape(s), [QUOTE], MinifyFrom(t, j));
    CatCat([QUOTE], Escape(s) + [QUOTE], MinifyFrom(t, j));
    assert PrintString(s) == [QUOTE] + (Escape(s) + [QUOTE]);
  }

  /** Layout that only the formatted text has: nothing is left of it. */
  lemma LeavesLayout(t: Bytes, i: nat, j: nat, ws: Bytes)
    requires Spans(t, i, j, If(true, ws)) && forall k :: 0 <= k < |ws| ==> IsSpace(ws[k])
    ensures Leaves(t, i, j, If(false, ws))
  {
    LeavesNothing(t, i, j, ws);
  }

  lemma {:induction false} TabsAreSpace(n: int)
    ensures forall k :: 0 <= k < |Tabs(n)| ==> IsSpace(Tabs(n)[k])
  {
    if n > 0 {
      TabsAreSpace(n - 1);
    }
  }

  lemma ScalarLeaves(v: Json, depth: nat, t: Bytes, i: nat, j: nat)
    requires Printable(v) && !v.Array? && !v.Object? && Spans(t, i, j, PrintValue(v, depth, true))
    ensures Leaves(t, i, j, PrintValue(v, depth, false))
  {
    if v.String? {
      LeavesString(v.text, t, i, j);
    } else {
      LeavesCopied(t, i, j, PrintValue(v, depth, true));
    }
  }

  lemma {:induction false} ValueLeaves(v: Json, depth: nat, t: Bytes, i: nat, j: nat)
    requires Printable(v) && Spans(t, i, j, PrintValue(v, depth, true))
    ensures Leaves(t, i, j, PrintValue(v, depth, false))
    decreases v, 1
  {
    if v.Array? {
      var x, y := PrintItems(v.items, depth, true), PrintItems(v.items, depth, false);
      hide PrintItems, Spans, Leaves;
      var k, l := Split3(t, i, j, [OPEN_BRACKET], x, [CLOSE_BRACKET]);
      LeavesByte(t, i, k, OPEN_BRACKET);
      ItemsLeaves(v.items, depth, t, k, l);
      LeavesByte(t, l, j, CLOSE_BRACKET);
      LeavesBoth(t, i, k, l, [OPEN_BRACKET], y);
      LeavesBoth(t, i, l, j, [OPEN_BRACKET] + y, [CLOSE_BRACKET]);
    } else if v.Object? {
      ObjectLeaves(v, depth, t, i, j);
    } else {
      ScalarLeaves(v, depth, t, i, j);
    }
  }

  lemma {:induction false} ItemsLeaves(items: seq<Json>, depth: nat, t: Bytes, i: nat, j: nat)
    requires PrintableItems(items) && Spans(t, i, j, PrintItems(items, depth, true))
    ensures Leaves(t, i, j, PrintItems(items, depth, false))
    decreases items, 0
  {
    if items == [] {
      CatNothing(MinifyFrom(t, i));
    } else if |items| == 1 {
      ValueLeaves(items[0], depth + 1, t, i, j);
    } else {
      var x, y := PrintValue(items[0], depth + 1, true), PrintValue(items[0], depth + 1, false);
      var xs, ys := PrintItems(items[1..], depth, true), PrintItems(items[1..], depth, false);
      assert PrintItems(items, depth, true) == x + [COMMA] + If(true, [SPACE]) + xs;
      assert PrintItems(items, depth, false) == y + [COMMA] + If(false, [SPACE]) + ys;
      hide PrintValue, PrintItems, Spans, Leaves, Printable, If;
      var k, l, m := Split4(t, i, j, x, [COMMA], If(true, [SPACE]), xs);
      ValueLeaves(items[0], depth + 1, t, i, k);
      LeavesByte(t, k, l, COMMA);
      LeavesLayout(t, l, m, [SPACE]);
      ItemsLeaves(items[1..], depth, t, m, j);
      LeavesBoth(t, i, k, l, y, [COMMA]);
      LeavesBoth(t, i, l, m, y + [COMMA], If(false, [SPACE]));
      LeavesBoth(t, i, m, j, y + [COMMA] + If(false, [SPACE]), ys);
    }
  }

  lemma {:induction false} ObjectLeaves(v: Json, depth: nat, t: Bytes, i: nat, j: nat)
    requires v.Object? && Printable(v) && Spans(t, i, j, PrintValue(v, depth, true))
    ensures Leaves(t, i, j, PrintValue(v, depth, false))
    decreases v, 0
  {
    TabsAreSpace(depth);
    TabsAreSpace(depth - 1);
    if v.members == [] {
      var ws := [NEWLINE] + Tabs(depth - 1);
      hide Spans, Leaves, Tabs, If;
      var k, l := Split3(t, i, j, [OPEN_BRACE], If(true, ws), [CLOSE_BRACE]);
      LeavesByte(t, i, k, OPEN_BRACE);
      LeavesLayout(t, k, l, ws);
      LeavesByte(t, l, j, CLOSE_BRACE);
      LeavesBoth(t, i, k, l, [OPEN_BRACE], If(false, ws));
      LeavesBoth(t, i, l, j, [OPEN_BRACE] + If(false, ws), [CLOSE_BRACE]);
    } else {
      var x, y := PrintMembers(v.members, depth + 1, true), PrintMembers(v.members, depth + 1, false);
      assert PrintValue(v, depth, true) == [OPEN_BRACE] + If(true, [NEWLINE]) + x + If(true, Tabs(depth)) + [CLOSE_BRACE];
      assert PrintValue(v, depth, false) == [OPEN_BRACE] + If(false, [NEWLINE]) + y + If(false, Tabs(depth)) + [CLOSE_BRACE];
      hide PrintValue, PrintMembers, Spans, Leaves, Tabs, If;
      var k, l, m, n := Split5(t, i, j, [OPEN_BRACE], If(true, [NEWLINE]), x, If(true, Tabs(depth)), [CLOSE_BRACE]);
      LeavesByte(t, i, k, OPEN_BRACE);
      LeavesLayout(t, k, l, [NEWLINE]);
      MembersLeaves(v.members, depth + 1, t, l, m);
      LeavesLayout(t, m, n, Tabs(depth));
      LeavesByte(t, n, j, CLOSE_BRACE);
      LeavesBoth(t, i, k, l, [OPEN_BRACE], If(false, [NEWLINE]));
      LeavesBoth(t, i, l, m, [OPEN_BRACE] + If(false, [NEWLINE]), y);
      LeavesBoth(t, i, m, n, [OPEN_BRACE] + If(false, [NEWLINE]) + y, If(false, Tabs(depth)));
      LeavesBoth(t, i, n, j, [OPEN_BRACE] + If(false, [NEWLINE]) + y + If(false, Tabs(depth)), [CLOSE_BRACE]);
    }
  }

  lemma {:induction false} MembersLeaves(members: seq<Member>, depth: nat, t: Bytes, i: nat, j: nat)
    requires members != [] && PrintableMembers(members) && Spans(t, i, j, PrintMembers(members, depth, true))
    ensures Leaves(t, i, j, PrintMembers(members, depth, false))
    decreases members, 0
  {
    var x, y := PrintMember(members[0], depth, true), PrintMember(members[0], depth, false);
    if |members| == 1 {
      hide PrintMember, Spans, Leaves, Printable, If;
      var k := Split2(t, i, j, x, If(true, [NEWLINE]));
      MemberLeaves(members[0], depth, t, i, k);
      LeavesLayout(t, k, j, [NEWLINE]);
      LeavesBoth(t, i, k, j, y, If(false, [NEWLINE]));
    } else {
      var xs, ys := PrintMembers(members[1..], depth, true), PrintMembers(members[1..], depth, false);
      assert PrintMembers(members, depth, true) == x + [COMMA] + If(true, [NEWLINE]) + xs;
      assert PrintMembers(members, depth, false) == y + [COMMA] + If(false, [NEWLINE]) + ys;
      hide PrintMember, PrintMembers, Spans, Leaves, Printable, If;
      var k, l, m := Split4(t, i, j, x, [COMMA], If(true, [NEWLINE]), xs);
      MemberLeaves(members[0], depth, t, i, k);
      LeavesByte(t, k, l, COMMA);
      LeavesLayout(t, l, m, [NEWLINE]);
      MembersLeaves(members[1..], depth, t, m, j);
      LeavesBoth(t, i, k, l, y, [COMMA]);
      LeavesBoth(t, i, l, m, y + [COMMA], If(false, [NEWLINE]));
      LeavesBoth(t, i, m, j, y + [COMMA] + If(false, [NEWLINE]), ys);
    }
  }

  lemma {:induction false} MemberLeaves(m: Member, depth: nat, t: Bytes, i: nat, j: nat)
    requires NulFree(m.name) && Printable(m.value) && Spans(t, i, j, PrintMember(m, depth, true))
    ensures Leaves(t, i, j, PrintMember(m, depth, false))
    decreases m, 2
  {
    var x, y, name := PrintValue(m.value, depth, true), PrintValue(m.value, depth, false), PrintString(m.name);
    assert PrintMember(m, depth, true) == If(true, Tabs(depth)) + name + [COLON] + If(true, [TAB]) + x;
    assert PrintMember(m, depth, false) == If(false, Tabs(depth)) + name + [COLON] + If(false, [TAB]) + y;
    TabsAreSpace(depth);
    hide PrintMember, PrintValue, PrintString, Spans, Leaves, Printable, Tabs, If;
    var k, l, n, o := Split5(t, i, j, If(true, Tabs(depth)), name, [COLON], If(true, [TAB]), x);
    LeavesLayout(t, i, k, Tabs(depth));
    LeavesString(m.name, t, k, l);
    LeavesByte(t, l, n, COLON);
    LeavesLayout(t, n, o, [TAB]);
    ValueLeaves(m.value, depth, t, o, j);
    LeavesBoth(t, i, k, l, If(false, Tabs(depth)), name);
    LeavesBoth(t, i, l, n, If(false, Tabs(depth)) + name, [COLON]);
    LeavesBoth(t, i, n, o, If(false, Tabs(depth)) + name + [COLON], If(false, [TAB]));
    LeavesBoth(t, i, o, j, If(false, Tabs(depth)) + name + [COLON] + If(false, [TAB]), y);
  }

  /** Minifying formatted text gives the unformatted text. */
  lemma MinifyPrint(v: Json)
    requires Printable(v)
    ensures MinifyFrom(Print(v), 0) == Minified(PrintUnformatted(v))
  {
    var t := Print(v);
    assert t[0..|t|] == t;
    ValueLeaves(v, 0, t, 0, |t|);
    assert PrintUnformatted(v) + [] == PrintUnformatted(v);
  }

  // ------------------------------------------------------------------------- in place

  /** Having read t up to i and written w, what the whole of t leaves is w and what is left from i on. */
  ghost predicate Written(t: Bytes, i: nat, w: Bytes) {
    i <= |t| && MinifyFrom(t, 0) == Cat(w, MinifyFrom(t, i))
  }

  /** The same from inside a literal. */
  ghost predicate WrittenLiteral(t: Bytes, i: nat, w: Bytes) {
    i <= |t| && MinifyFrom(t, 0) == Cat(w, LiteralFrom(t, i))
  }

  lemma WrittenSkip(t: Bytes, i: nat, w: Bytes, j: nat)
    requires Written(t, i, w) && i < |t|
    requires || (IsSpace(t[i]) && j == i + 1)
             || (t[i] == SLASH && At(t, i + 1) == SLASH && j == LineEnd(t, i + 2))
             || (t[i] == SLASH && At(t, i + 1) == STAR && CommentEnd(t, i + 1) < |t| && j == CommentEnd(t, i + 1) + 2)
    ensures Written(t, j, w)
  {
  }

  lemma WrittenOpen(t: Bytes, i: nat, w: Bytes)
    requires Written(t, i, w) && i < |t| && t[i] == QUOTE
    ensures WrittenLiteral(t, i + 1, w + [QUOTE])
  {
    CatCat(w, [QUOTE], LiteralFrom(t, i + 1));
  }

  lemma WrittenCopy(t: Bytes, i: nat, w: Bytes)
    requires Written(t, i, w) && i < |t| && !IsSpace(t[i]) && t[i] != QUOTE
    requires !(t[i] == SLASH && (At(t, i + 1) == SLASH || At(t, i + 1) == STAR))
    ensures Written(t, i + 1, w + [t[i]])
  {
    CatCat(w, [t[i]], MinifyFrom(t, i + 1));
  }

  lemma WrittenInside(t: Bytes, i: nat, w: Bytes)
    requires WrittenLiteral(t, i, w) && i < |t|
    ensures t[i] == QUOTE ==> Written(t, i + 1, w + [QUOTE])
    ensures t[i] == BACKSLASH && i + 1 < |t| ==> WrittenLiteral(t, i + 2, w + [t[i]] + [t[i + 1]])
    ensures t[i] != QUOTE && t[i] != BACKSLASH ==> WrittenLiteral(t, i + 1, w + [t[i]])
  {
    if t[i] == QUOTE {
      CatCat(w, [QUOTE], MinifyFrom(t, i + 1));
    } else if t[i] == BACKSLASH {
      if i + 1 < |t| {
        CatCat(w, t[i..i + 2], LiteralFrom(t, i + 2));
        assert w + t[i..i + 2] == w + [t[i]] + [t[i + 1]];
      }
    } else {
      CatCat(w, [t[i]], LiteralFrom(t, i + 1));
    }
  }

  /** The buffer holds the text w already written, and the unread part of t with its NUL. */
  ghost predicate Holds(json: array<Byte>, was: Bytes, t: Bytes, into: nat, i: nat, w: Bytes)
    reads json
  {
    && |was| == json.Length && |t| < |was| && was[..|t|] == t && was[|t|] == 0 && NulFree(t)
    && into <= i <= |t| && json[..into] == w && forall k :: into <= k < json.Length ==> json[k] == was[k]
  }

  /** `*into++ = *json++` */
  method CopyByte(json: array<Byte>, ghost was: Bytes, ghost t: Bytes, into: nat, i: nat, ghost w: Bytes)
    requires Holds(json, was, t, into, i, w) && i < |t|
    modifies json
    ensures Holds(json, was, t, into + 1, i + 1, w + [t[i]])
  {
    json[into] := json[i];
    assert json[..into + 1] == w + [t[i]];
  }

  lemma Reading(json: array<Byte>, was: Bytes, t: Bytes, into: nat, i: nat, w: Bytes)
    requires Holds(json, was, t, into, i, w)
    ensures |t| < json.Length && i <= |t| && forall k :: i <= k <= |t| ==> json[k] == At(t, k)
    ensures NulFree(t)
  {
    assert forall k :: i <= k < |t| ==> json[k] == was[k] == was[..|t|][k];
  }

  lemma {:induction false} LineEndAt(t: Bytes, i: nat, j: nat)
    requires i <= j <= |t| && (forall k :: i <= k < j ==> t[k] != NEWLINE) && (j == |t| || t[j] == NEWLINE)
    ensures LineEnd(t, i) == j
    decreases j - i
  {
    if i < j {
      LineEndAt(t, i + 1, j);
    }
  }

  predicate Closing(t: Bytes, i: nat) {
    At(t, i) == STAR && At(t, i + 1) == SLASH
  }

  lemma {:induction false} CommentEndAt(t: Bytes, i: nat, j: nat)
    requires i <= j <= |t| && (forall k :: i <= k < j ==> !Closing(t, k)) && (j == |t| || Closing(t, j))
    ensures CommentEnd(t, i) == j
    decreases j - i
  {
    if i < j {
      assert !Closing(t, i);
      CommentEndAt(t, i + 1, j);
    }
  }

  /** A string literal is copied up to and including the quote that closes it. */
  method CopyLiteral(json: array<Byte>, ghost was: Bytes, ghost t: Bytes, start: nat, open: nat, ghost v: Bytes)
      returns (ok: bool, into: nat, i: nat, ghost w: Bytes)
    requires Holds(json, was, t, start, open, v) && Written(t, open, v) && open < |t| && t[open] == QUOTE
    modifies json
    ensures ok ==> open < i && Holds(json, was, t, into, i, w) && Written(t, i, w)
    ensures !ok ==> MinifyFrom(t, 0).Overrun?
  {
    hide Holds, Written, WrittenLiteral;
    CopyByte(json, was, t, start, open, v);
    WrittenOpen(t, open, v);
    into, i, w := start + 1, open + 1, v + [QUOTE];
    Reading(json, was, t, into, i, w);
    while json[i] != 0 && json[i] != QUOTE
      invariant open < i <= |t| && Holds(json, was, t, into, i, w) && WrittenLiteral(t, i, w)
      invariant |t| < json.Length && forall k :: i <= k <= |t| ==> json[k] == At(t, k)
      decreases |t| - i
    {
      WrittenInside(t, i, w);
      if json[i] == BACKSLASH {
        if json[i + 1] == 0 {
          UnclosedEscape(t, i, w);
          return false, into, i, w;
        }
        CopyByte(json, was, t, into, i, w);
        into, i, w := into + 1, i + 1, w + [t[i]];
        Reading(json, was, t, into, i, w);
      }
      CopyByte(json, was, t, into, i, w);
      into, i, w := into + 1, i + 1, w + [t[i]];
      Reading(json, was, t, into, i, w);
    }
    if json[i] == 0 {
      Unclosed(t, i, w);
      return false, into, i, w;
    }
    WrittenInside(t, i, w);
    CopyByte(json, was, t, into, i, w);
    into, i, w := into + 1, i + 1, w + [t[i]];
    ok := true;
  }

  lemma UnclosedEscape(t: Bytes, i: nat, w: Bytes)
    requires WrittenLiteral(t, i, w) && i + 1 == |t| && t[i] == BACKSLASH
    ensures MinifyFrom(t, 0).Overrun?
  {
  }

  lemma Unclosed(t: Bytes, i: nat, w: Bytes)
    requires WrittenLiteral(t, i, w) && i == |t|
    ensures MinifyFrom(t, 0).Overrun?
  {
  }

  lemma UnclosedComment(t: Bytes, i: nat, w: Bytes)
    requires Written(t, i, w) && i < |t| && t[i] == SLASH && At(t, i + 1) == STAR && CommentEnd(t, i + 1) == |t|
    ensures MinifyFrom(t, 0).Overrun?
  {
  }

  method SkipLine(json: array<Byte>, ghost t: Bytes, open: nat) returns (i: nat)
    requires |t| < json.Length && open + 2 <= |t| && t[open] == SLASH && t[open + 1] == SLASH && NulFree(t)
    requires forall k :: open <= k <= |t| ==> json[k] == At(t, k)
    ensures open < i == LineEnd(t, open + 2)
  {
    i := open;
    while json[i] != 0 && json[i] != NEWLINE
      invariant open <= i <= |t| && forall k :: open <= k < i ==> t[k] != NEWLINE
      decreases |t| - i
    {
      i := i + 1;
    }
    assert i >= open + 2;
    LineEndAt(t, open + 2, i);
  }

  method SkipComment(json: array<Byte>, ghost t: Bytes, open: nat) returns (i: nat)
    requires |t| < json.Length && open + 2 <= |t| && t[open] == SLASH && t[open + 1] == STAR && NulFree(t)
    requires forall k :: open <= k <= |t| ==> json[k] == At(t, k)
    ensures open < i == CommentEnd(t, open + 1)
  {
    i := open;
    while json[i] != 0 && !(json[i] == STAR && json[i + 1] == SLASH)
      invariant open <= i <= |t| && forall k :: open <= k < i ==> !Closing(t, k)
      decreases |t| - i
    {
      i := i + 1;
    }
    assert i > open;
    CommentEndAt(t, open + 1, i);
  }

  /** cJSON_Minify on a buffer whose string is its first n bytes. When ok, the string left in the buffer is the
      minified text and the bytes after its NUL are as they were; the write pointer never passes the read
      pointer (Holds), so nothing is overwritten before it is read. Not ok: the read pointer would pass the NUL. */
  method Minify(json: array<Byte>, ghost n: nat) returns (ok: bool)
    requires n < json.Length && json[n] == 0 && NulFree(json[..n])
    modifies json
    ensures ok <==> MinifyFrom(old(json[..n]), 0).Minified?
    ensures ok ==>
      var m := MinifyFrom(old(json[..n]), 0).text;
      |m| <= n && json[..|m|] == m && json[|m|] == 0 && json[|m| + 1..] == old(json[|m| + 1..])
  {
    ghost var was, t, w: Bytes := json[..], json[..n], [];
    var into: nat, i: nat := 0, 0;
    CatNothing(MinifyFrom(t, 0));
    assert Holds(json, was, t, into, i, w) && Written(t, i, w);
    hide Holds, Written, MinifyFrom, NulFree;
    Reading(json, was, t, into, i, w);
    while json[i] != 0
      invariant i <= n == |t| < json.Length && Holds(json, was, t, into, i, w) && Written(t, i, w)
      invariant forall k :: i <= k <= n ==> json[k] == At(t, k)
      decreases n - i
    {
      if json[i] == SPACE || json[i] == TAB || json[i] == RETURN || json[i] == NEWLINE {
        WrittenSkip(t, i, w, i + 1);
        i := i + 1;
        HoldsOn(json, was, t, into, i - 1, i, w);
      } else if json[i] == SLASH && json[i + 1] == SLASH {
        var j := SkipLine(json, t, i);
        WrittenSkip(t, i, w, j);
        HoldsOn(json, was, t, into, i, j, w);
        i := j;
      } else if json[i] == SLASH && json[i + 1] == STAR {
        var j := SkipComment(json, t, i);
        if json[j] == 0 {
          UnclosedComment(t, i, w);
          return false;
        }
        WrittenSkip(t, i, w, j + 2);
        HoldsOn(json, was, t, into, i, j + 2, w);
        i := j + 2;
      } else if json[i] == QUOTE {
        ok, into, i, w := CopyLiteral(json, was, t, into, i, w);
        if !ok {
          return false;
        }
      } else {
        WrittenCopy(t, i, w);
        CopyByte(json, was, t, into, i, w);
        into, i, w := into + 1, i + 1, w + [t[i]];
      }
      Reading(json, was, t, into, i, w);
    }
    WholeWritten(json, was, t, into, i, w);
    json[into] := 0;
    ok := true;
  }

  lemma HoldsOn(json: array<Byte>, was: Bytes, t: Bytes, into: nat, i: nat, j: nat, w: Bytes)
    requires Holds(json, was, t, into, i, w) && i <= j <= |t|
    ensures Holds(json, was, t, into, j, w)
  {
  }

  lemma WholeWritten(json: array<Byte>, was: Bytes, t: Bytes, into: nat, i: nat, w: Bytes)
    requires Holds(json, was, t, into, i, w) && Written(t, i, w) && i == |t|
    ensures MinifyFrom(t, 0) == Minified(w) && |w| == into <= |t| < json.Length && json[..into] == w
    ensures |was| == json.Length && json[into + 1..] == was[into + 1..]
  {
    assert w + [] == w;
  }

  /** Minify run on cJSON_Print's text leaves cJSON_PrintUnformatted's. */
  method MinifyPrinted(json: array<Byte>, v: Json)
    requires Printable(v) && |Print(v)| < json.Length && json[..|Print(v)|] == Print(v) && json[|Print(v)|] == 0
    modifies json
    ensures |PrintUnformatted(v)| <= |Print(v)|
    ensures json[..|PrintUnformatted(v)|] == PrintUnformatted(v) && json[|PrintUnformatted(v)|] == 0
  {
    MinifyPrint(v);
    PrintNulFree(v, 0, true);
    var _ := Minify(json, |Print(v)|);
  }
}
