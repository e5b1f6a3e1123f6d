/**
 * The link placeholder registry of the summariser: before a text goes to the
 * language model every markdown-link target and every bare `http(s)://` URL
 * is swapped for a numbered token `[LINK_nnnn]`, and afterwards the tokens are
 * swapped back.
 *
 * The rewritten text is described by a template: literal chunks with one
 * token between each pair of neighbours. Rendering the template with the
 * tokens gives the text sent out, rendering it with the URLs gives the input
 * back; the round trip is proved on that description.
 */
module LinkPreserver {
  import opened Wrappers
  import opened Text
  import opened Rewrite

  /** `f"LINK_{n:04d}"`. */
  function Placeholder(n: nat): string {
    "LINK_" + ZeroPad(NatToString(n), 4)
  }

  /** The token that stands for link `n` in the text: `[LINK_nnnn]`. */
  function Bracketed(n: nat): string {
    "[" + Placeholder(n) + "]"
  }

  /** One entry of the link map, in the map's insertion order. */
  datatype Entry = Entry(key: string, url: string)

  /** A link recorded by the scan: its number and its URL. */
  datatype Tok = Tok(id: nat, url: string)

  /** Distinct numbers get distinct placeholders, so no key of the map is used twice. */
  lemma PlaceholderInjective(m: nat, n: nat)
    requires Placeholder(m) == Placeholder(n)
    ensures m == n
  {
    assert Placeholder(m)[5..] == ZeroPad(NatToString(m), 4);
    assert Placeholder(n)[5..] == ZeroPad(NatToString(n), 4);
    PaddedInjective(m, n, 4);
  }

  // ----- Rendering a template -------------------------------------------

  function Urls(toks: seq<Tok>): (r: seq<string>)
    ensures |r| == |toks| && forall i :: 0 <= i < |toks| ==> r[i] == toks[i].url
  {
    seq(|toks|, i requires 0 <= i < |toks| => toks[i].url)
  }

  function Tokens(toks: seq<Tok>): (r: seq<string>)
    ensures |r| == |toks| && forall i :: 0 <= i < |toks| ==> r[i] == Bracketed(toks[i].id)
  {
    seq(|toks|, i requires 0 <= i < |toks| => Bracketed(toks[i].id))
  }

  /** Gluing fill `j` to its two neighbouring chunks does not change the rendering. */
  lemma {:induction false} InterleaveMerge(c: seq<string>, f: seq<string>, j: nat)
    requires |c| == |f| + 1 && j < |f|
    ensures Interleave(c, f) == Interleave(c[..j] + [c[j] + f[j] + c[j + 1]] + c[j + 2..], f[..j] + f[j + 1..])
    decreases j
  {
    var c' := c[..j] + [c[j] + f[j] + c[j + 1]] + c[j + 2..];
    var f' := f[..j] + f[j + 1..];
    if j == 0 {
      assert c' == [c[0] + f[0] + c[1]] + c[2..];
      assert f' == f[1..];
      if |f| > 1 {
        assert c'[1..] == c[2..] && f'[1..] == f[2..];
        assert c[1..][1..] == c[2..] && f[1..][1..] == f[2..];
      }
    } else {
      assert c'[0] == c[0] && f'[0] == f[0];
      assert c'[1..] == c[1..][..j - 1] + [c[1..][j - 1] + f[1..][j - 1] + c[1..][j]] + c[1..][j + 1..];
      assert f'[1..] == f[1..][..j - 1] + f[1..][j..];
      InterleaveMerge(c[1..], f[1..], j - 1);
    }
  }

  lemma {:induction false} InterleaveContainsChunk(c: seq<string>, f: seq<string>, i: nat, sub: string)
    requires |c| == |f| + 1 && i < |c| && Contains(c[i], sub)
    ensures Contains(Interleave(c, f), sub)
    decreases |f|
  {
    if |f| > 0 {
      var rest := Interleave(c[1..], f[1..]);
      assert Interleave(c, f) == c[0] + (f[0] + rest) == (c[0] + f[0]) + rest;
      if i == 0 {
        ContainsLeft(c[0], f[0] + rest, sub);
      } else {
        InterleaveContainsChunk(c[1..], f[1..], i - 1, sub);
        ContainsRight(c[0] + f[0], rest, sub);
      }
    }
  }

  lemma {:induction false} InterleaveContainsFill(c: seq<string>, f: seq<string>, i: nat, sub: string)
    requires |c| == |f| + 1 && i < |f| && Contains(f[i], sub)
    ensures Contains(Interleave(c, f), sub)
    decreases |f|
  {
    var rest := Interleave(c[1..], f[1..]);
    assert Interleave(c, f) == c[0] + (f[0] + rest) == (c[0] + f[0]) + rest;
    if i == 0 {
      ContainsLeft(f[0], rest, sub);
      ContainsRight(c[0], f[0] + rest, sub);
    } else {
      InterleaveContainsFill(c[1..], f[1..], i - 1, sub);
      ContainsRight(c[0] + f[0], rest, sub);
    }
  }

  // ----- Replacing one token --------------------------------------------

  /** The fills after every token numbered `k` has been replaced by `url`. */
  function Fill(toks: seq<Tok>, k: nat, url: string): (r: seq<string>)
    ensures |r| == |toks|
    ensures forall i :: 0 <= i < |toks| ==> r[i] == if toks[i].id == k then url else Bracketed(toks[i].id)
  {
    seq(|toks|, i requires 0 <= i < |toks| => if toks[i].id == k then url else Bracketed(toks[i].id))
  }

  lemma BracketedShape(n: nat)
    ensures var b := Bracketed(n); var z := ZeroPad(NatToString(n), 4);
      && |b| == |z| + 7 && b[..6] == "[LINK_" && b[6..6 + |z|] == z && b[|b| - 1] == ']'
      && b[1..6] == "LINK_"
  {
    var z := ZeroPad(NatToString(n), 4);
    assert Bracketed(n) == "[LINK_" + z + "]";
  }

  lemma BracketedContainsLink(n: nat, s: string)
    requires Contains(s, Bracketed(n))
    ensures Contains(s, "LINK_")
  {
    var b := Bracketed(n);
    var j := FoundAt(s, b);
    BracketedShape(n);
    forall x | 0 <= x < 5 ensures s[j + 1 + x] == "LINK_"[x] {
      assert s[j + 1 + x] == s[j..j + |b|][1 + x] == b[1..6][x];
    }
    assert s[j + 1..j + 6] == "LINK_";
    ContainsSlice(s, "LINK_", j + 1);
  }

  /** No token can start inside a chunk free of `LINK_` that is followed by a token or by nothing. */
  lemma ChunkNoStart(x: string, y: string, k: nat)
    requires !Contains(x, "LINK_")
    requires |y| == 0 || y[0] == '['
    ensures forall j :: 0 <= j < |x| ==> !StartsWith((x + y)[j..], Bracketed(k))
  {
    forall j | 0 <= j < |x| ensures !StartsWith((x + y)[j..], Bracketed(k)) {
      ChunkNoStartAt(x, y, k, j);
    }
  }

  lemma ChunkNoStartAt(x: string, y: string, k: nat, j: nat)
    requires !Contains(x, "LINK_")
    requires |y| == 0 || y[0] == '['
    requires j < |x|
    ensures !StartsWith((x + y)[j..], Bracketed(k))
  {
    var pat := Bracketed(k);
    var s := (x + y)[j..];
    BracketedShape(k);
    if j + 6 <= |x| {
      NotContainsAt(x, "LINK_", j + 1);
      assert x[j + 1..][..5] != "LINK_";
      assert s[1..6] == x[j + 1..][..5];
      if |pat| <= |s| {
        assert s[..|pat|][1..6] == s[1..6];
        assert pat[1..6] == "LINK_";
      }
    } else if |y| > 0 {
      var d := |x| - j;
      assert s[d] == y[0] == '[';
      assert pat[d] == pat[1..6][d - 1] == "LINK_"[d - 1];
      if |pat| <= |s| {
        assert s[..|pat|][d] == s[d];
      }
    } else {
      assert |s| < 6;
    }
  }

  /** A token numbered `id` contains no occurrence of another token's text. */
  lemma TokenNoStart(id: nat, k: nat, rest: string)
    requires id != k
    ensures forall j :: 0 <= j < |Bracketed(id)| ==> !StartsWith((Bracketed(id) + rest)[j..], Bracketed(k))
  {
    forall j | 0 <= j < |Bracketed(id)| ensures !StartsWith((Bracketed(id) + rest)[j..], Bracketed(k)) {
      if j == 0 {
        assert (Bracketed(id) + rest)[0..] == Bracketed(id) + rest;
        TokenNotAtStart(id, k, rest);
      } else {
        TokenNotInside(id, k, rest, j);
      }
    }
  }

  lemma TokenNotInside(id: nat, k: nat, rest: string, j: nat)
    requires 0 < j < |Bracketed(id)|
    ensures !StartsWith((Bracketed(id) + rest)[j..], Bracketed(k))
  {
    var b := Bracketed(id);
    BracketedInner(id, j);
    BracketedShape(k);
    assert (b + rest)[j..][0] == b[j];
  }

  /** A placeholder holds no `[` after its first character. */
  lemma BracketedInner(n: nat, j: nat)
    requires 0 < j < |Bracketed(n)|
    ensures Bracketed(n)[j] != '['
  {
    var b := Bracketed(n);
    var z := ZeroPad(NatToString(n), 4);
    BracketedShape(n);
    if j < 6 {
      assert b[j] == "[LINK_"[j];
    } else if j < 6 + |z| {
      assert b[j] == z[j - 6];
    }
  }

  lemma TokenNotAtStart(id: nat, k: nat, rest: string)
    requires id != k
    ensures !StartsWith(Bracketed(id) + rest, Bracketed(k))
  {
    var b := Bracketed(id);
    var pat := Bracketed(k);
    var zi := ZeroPad(NatToString(id), 4);
    var zk := ZeroPad(NatToString(k), 4);
    BracketedShape(id);
    BracketedShape(k);
    var s := b + rest;
    if |pat| <= |s| {
      var p := s[..|pat|];
      if |zi| == |zk| {
        if zi == zk {
          PaddedInjective(id, k, 4);
        }
        assert p[6..6 + |zk|] == b[6..6 + |zi|] == zi;
        assert pat[6..6 + |zk|] == zk;
      } else if |zk| < |zi| {
        assert p[6 + |zk|] == b[6 + |zk|] == zi[|zk|];
        assert IsDigit(zi[|zk|]);
        assert pat[6 + |zk|] == ']';
      } else {
        assert p[6 + |zi|] == b[6 + |zi|] == ']';
        assert pat[6 + |zi|] == zk[|zi|];
        assert IsDigit(zk[|zi|]);
      }
    }
  }

  /**
   * `text.replace("[LINK_k]", url)` on a rendered template whose chunks are
   * free of `LINK_` replaces exactly the tokens numbered `k`.
   */
  lemma {:induction false} ReplaceToken(c: seq<string>, toks: seq<Tok>, k: nat, url: string)
    requires |c| == |toks| + 1
    requires forall i :: 0 <= i < |c| ==> !Contains(c[i], "LINK_")
    ensures ReplaceAll(Interleave(c, Tokens(toks)), Bracketed(k), url) == Interleave(c, Fill(toks, k, url))
    decreases |toks|
  {
    if |toks| == 0 {
      if Contains(c[0], Bracketed(k)) {
        BracketedContainsLink(k, c[0]);
      }
      ReplaceAllAbsent(c[0], Bracketed(k), url);
    } else {
      ReplaceToken(c[1..], toks[1..], k, url);
      ReplaceTokenCons(c, toks, k, url);
    }
  }

  lemma ReplaceTokenCons(c: seq<string>, toks: seq<Tok>, k: nat, url: string)
    requires |c| == |toks| + 1 && |toks| > 0
    requires !Contains(c[0], "LINK_")
    requires ReplaceAll(Interleave(c[1..], Tokens(toks[1..])), Bracketed(k), url)
      == Interleave(c[1..], Fill(toks[1..], k, url))
    ensures ReplaceAll(Interleave(c, Tokens(toks)), Bracketed(k), url) == Interleave(c, Fill(toks, k, url))
  {
    var b := Bracketed(toks[0].id);
    var rest := Interleave(c[1..], Tokens(toks[1..]));
    InterleaveCons(c, Tokens(toks));
    InterleaveCons(c, Fill(toks, k, url));
    assert Tokens(toks)[1..] == Tokens(toks[1..]);
    assert Fill(toks, k, url)[1..] == Fill(toks[1..], k, url);
    BracketedShape(toks[0].id);
    ReplaceChunkHead(c[0], b + rest, k, url);
    ReplaceTokenHead(toks[0].id, k, rest, url);
  }

  /** `replace` leaves a chunk free of `LINK_` alone when a token or nothing follows it. */
  lemma ReplaceChunkHead(x: string, y: string, k: nat, url: string)
    requires !Contains(x, "LINK_")
    requires |y| == 0 || y[0] == '['
    ensures ReplaceAll(x + y, Bracketed(k), url) == x + ReplaceAll(y, Bracketed(k), url)
  {
    ChunkNoStart(x, y, k);
    ReplaceAllSkip(x, y, Bracketed(k), url);
  }

  /** `replace` across one token: the token becomes `url` exactly when it is numbered `k`. */
  lemma ReplaceTokenHead(id: nat, k: nat, rest: string, url: string)
    ensures ReplaceAll(Bracketed(id) + rest, Bracketed(k), url)
      == (if id == k then url else Bracketed(id)) + ReplaceAll(rest, Bracketed(k), url)
  {
    if id == k {
      ReplaceAllHead(rest, Bracketed(k), url);
    } else {
      TokenNoStart(id, k, rest);
      ReplaceAllSkip(Bracketed(id), rest, Bracketed(k), url);
    }
  }

  // ----- restore_links ---------------------------------------------------

  /**
   * One round of the loop of `restore_links` for one map entry: replace the
   * bracketed form `[key]` if it occurs, otherwise the bare key if it occurs,
   * otherwise leave the text alone.
   */
  function RestoreStep(text: string, e: Entry): string
    requires |e.key| > 0
  {
    var br := "[" + e.key + "]";
    if Contains(text, br) then ReplaceAll(text, br, e.url)
    else if Contains(text, e.key) then ReplaceAll(text, e.key, e.url)
    else text
  }

  predicate KeysNonEmpty(m: seq<Entry>) {
    forall i :: 0 <= i < |m| ==> |m[i].key| > 0
  }

  /** `restore_links`: the entries applied in the map's order. */
  function Restore(text: string, m: seq<Entry>): string
    requires KeysNonEmpty(m)
    decreases |m|
  {
    if |m| == 0 then text else Restore(RestoreStep(text, m[0]), m[1..])
  }

  /** Fail-open: entries whose key does not occur in the text change nothing, and nothing is raised. */
  lemma {:induction false} RestoreAbsent(text: string, m: seq<Entry>)
    requires KeysNonEmpty(m)
    requires forall i :: 0 <= i < |m| ==> !Contains(text, m[i].key)
    ensures Restore(text, m) == text
    decreases |m|
  {
    if |m| > 0 {
      var br := "[" + m[0].key + "]";
      ContainsAt(m[0].key, m[0].key, 0);
      ContainsInfix("[", m[0].key, "]", m[0].key);
      if Contains(text, br) {
        ContainsTrans(text, br, m[0].key);
      }
      RestoreAbsent(text, m[1..]);
    }
  }

  /** The link map as `preserve_links` builds it: `LINK_nnnn` keys in the order of `L`. */
  function Keyed(L: seq<Tok>): (m: seq<Entry>)
    ensures |m| == |L| && forall i :: 0 <= i < |L| ==> m[i] == Entry(Placeholder(L[i].id), L[i].url)
    ensures KeysNonEmpty(m)
  {
    seq(|L|, i requires 0 <= i < |L| => Entry(Placeholder(L[i].id), L[i].url))
  }

  predicate DistinctIds(toks: seq<Tok>) {
    forall i, j :: 0 <= i < j < |toks| ==> toks[i].id != toks[j].id
  }

  function TokSet(toks: seq<Tok>): set<Tok> {
    set i | 0 <= i < |toks| :: toks[i]
  }

  lemma TokSetHas(toks: seq<Tok>, i: nat)
    requires i < |toks|
    ensures toks[i] in TokSet(toks)
  {
  }

  lemma TokSetRemove(toks: seq<Tok>, j: nat)
    requires DistinctIds(toks) && j < |toks|
    ensures var rest := toks[..j] + toks[j + 1..];
      DistinctIds(rest) && TokSet(rest) == TokSet(toks) - {toks[j]}
  {
    var rest := toks[..j] + toks[j + 1..];
    forall i | 0 <= i < |rest| ensures rest[i] == toks[if i < j then i else i + 1] && rest[i] != toks[j] {
    }
    forall x | x in TokSet(toks) - {toks[j]} ensures x in TokSet(rest) {
      var i :| 0 <= i < |toks| && toks[i] == x;
      assert i != j;
      assert rest[if i < j then i else i - 1] == x;
    }
  }

  lemma TokSetTail(L: seq<Tok>)
    requires DistinctIds(L) && |L| > 0
    ensures DistinctIds(L[1..]) && TokSet(L[1..]) == TokSet(L) - {L[0]}
  {
    TokSetRemove(L, 0);
    assert L[..0] + L[1..] == L[1..];
  }

  /** After the token numbered `toks[j].id` is replaced, gluing its URL into the chunks gives a template again. */
  lemma FillMerge(c: seq<string>, toks: seq<Tok>, j: nat)
    requires |c| == |toks| + 1 && j < |toks| && DistinctIds(toks)
    ensures var c' := c[..j] + [c[j] + toks[j].url + c[j + 1]] + c[j + 2..];
      var toks' := toks[..j] + toks[j + 1..];
      && |c'| == |toks'| + 1
      && Interleave(c, Fill(toks, toks[j].id, toks[j].url)) == Interleave(c', Tokens(toks'))
      && Interleave(c, Urls(toks)) == Interleave(c', Urls(toks'))
  {
    var F := Fill(toks, toks[j].id, toks[j].url);
    InterleaveMerge(c, F, j);
    FillDrop(toks, j);
    InterleaveMerge(c, Urls(toks), j);
    UrlsDrop(toks, j);
  }

  /** Filling token `j` with its own URL: that URL at `j`, the other tokens as they were. */
  lemma FillDrop(toks: seq<Tok>, j: nat)
    requires j < |toks| && DistinctIds(toks)
    ensures var F := Fill(toks, toks[j].id, toks[j].url);
      F[j] == toks[j].url && F[..j] + F[j + 1..] == Tokens(toks[..j] + toks[j + 1..])
  {
    var F := Fill(toks, toks[j].id, toks[j].url);
    var toks' := toks[..j] + toks[j + 1..];
    var G := F[..j] + F[j + 1..];
    forall i | 0 <= i < |toks'| ensures G[i] == Tokens(toks')[i] {
      if i < j {
        assert toks'[i] == toks[i] && G[i] == F[i];
        assert toks[i].id != toks[j].id;
      } else {
        assert toks'[i] == toks[i + 1] && G[i] == F[i + 1];
        assert toks[j].id != toks[i + 1].id;
      }
    }
  }

  /** Dropping token `j` drops its URL. */
  lemma UrlsDrop(toks: seq<Tok>, j: nat)
    requires j < |toks|
    ensures Urls(toks)[..j] + Urls(toks)[j + 1..] == Urls(toks[..j] + toks[j + 1..])
  {
    var toks' := toks[..j] + toks[j + 1..];
    forall i | 0 <= i < |toks'| ensures (Urls(toks)[..j] + Urls(toks)[j + 1..])[i] == Urls(toks')[i] {
      if i < j {
        assert toks'[i] == toks[i];
      } else {
        assert toks'[i] == toks[i + 1];
      }
    }
  }

  /**
   * The heart of the round trip: restoring, in map order, a text rendered
   * from a template whose chunks come from a text free of `LINK_` gives back
   * the text rendered with the URLs, whatever order the tokens stand in.
   */
  lemma {:induction false} RestoreTemplate(c: seq<string>, toks: seq<Tok>, L: seq<Tok>, orig: string)
    requires |c| == |toks| + 1
    requires Interleave(c, Urls(toks)) == orig && !Contains(orig, "LINK_")
    requires DistinctIds(toks) && DistinctIds(L) && TokSet(toks) == TokSet(L)
    ensures Restore(Interleave(c, Tokens(toks)), Keyed(L)) == orig
    decreases |L|
  {
    if |L| == 0 {
      if |toks| > 0 {
        TokSetHas(toks, 0);
      }
    } else {
      var c', toks' := RestoreTemplateStep(c, toks, L, orig);
      RestoreTemplate(c', toks', L[1..], orig);
    }
  }

  /** Restoring one token's entry in a template whose chunks are free of `LINK_` fills in exactly that token. */
  lemma RestoreToken(c: seq<string>, toks: seq<Tok>, j: nat, orig: string)
    requires |c| == |toks| + 1 && j < |toks|
    requires Interleave(c, Urls(toks)) == orig && !Contains(orig, "LINK_")
    ensures RestoreStep(Interleave(c, Tokens(toks)), Entry(Placeholder(toks[j].id), toks[j].url))
      == Interleave(c, Fill(toks, toks[j].id, toks[j].url))
  {
    forall i | 0 <= i < |c| ensures !Contains(c[i], "LINK_") {
      if Contains(c[i], "LINK_") {
        InterleaveContainsChunk(c, Urls(toks), i, "LINK_");
      }
    }
    var br := Bracketed(toks[j].id);
    ContainsAt(br, br, 0);
    InterleaveContainsFill(c, Tokens(toks), j, br);
    ReplaceToken(c, toks, toks[j].id, toks[j].url);
  }

  /** Restoring the first entry of the map glues its URL into the chunks, leaving a smaller template. */
  lemma RestoreTemplateStep(c: seq<string>, toks: seq<Tok>, L: seq<Tok>, orig: string)
    returns (c': seq<string>, toks': seq<Tok>)
    requires |c| == |toks| + 1 && |L| > 0
    requires Interleave(c, Urls(toks)) == orig && !Contains(orig, "LINK_")
    requires DistinctIds(toks) && DistinctIds(L) && TokSet(toks) == TokSet(L)
    ensures |c'| == |toks'| + 1 && Interleave(c', Urls(toks')) == orig
    ensures DistinctIds(toks') && DistinctIds(L[1..]) && TokSet(toks') == TokSet(L[1..])
    ensures Restore(Interleave(c, Tokens(toks)), Keyed(L)) == Restore(Interleave(c', Tokens(toks')), Keyed(L[1..]))
  {
    var j := FindTok(toks, L[0], L);
    KeyedTail(L);
    RestoreToken(c, toks, j, orig);
    FillMerge(c, toks, j);
    c' := c[..j] + [c[j] + toks[j].url + c[j + 1]] + c[j + 2..];
    toks' := toks[..j] + toks[j + 1..];
    TokSetRemove(toks, j);
    TokSetTail(L);
  }

  /** A new bare URL adds its entry at the end of the map. */
  lemma KeyedSnoc(before: seq<Tok>, bare: seq<Tok>, tok: Tok)
    ensures Keyed(before + (bare + [tok])) == Keyed(before + bare) + [Entry(Placeholder(tok.id), tok.url)]
  {
    assert before + (bare + [tok]) == (before + bare) + [tok];
  }

  /** One more markdown link: its target enters the map under the next number. */
  lemma KeyedMdToksSnoc(links: seq<MdLink>, l: MdLink)
    ensures Keyed(MdToks(links + [l])) == Keyed(MdToks(links)) + [Entry(Placeholder(|links| + 1), l.url)]
  {
    assert MdToks(links + [l]) == MdToks(links) + [Tok(|links| + 1, l.url)];
  }

  /** A token of `L` has a position in a sequence holding the same tokens. */
  lemma FindTok(toks: seq<Tok>, t: Tok, L: seq<Tok>) returns (j: nat)
    requires TokSet(toks) == TokSet(L) && t in L
    ensures j < |toks| && toks[j] == t
  {
    var i :| 0 <= i < |L| && L[i] == t;
    TokSetHas(L, i);
    j :| 0 <= j < |toks| && toks[j] == t;
  }

  /** The map of `L` is the entry of its head, then the map of its tail. */
  lemma KeyedTail(L: seq<Tok>)
    requires |L| > 0
    ensures Keyed(L) == [Entry(Placeholder(L[0].id), L[0].url)] + Keyed(L[1..])
  {
    assert Keyed(L)[1..] == Keyed(L[1..]);
  }

  // ----- preserve_links: the two passes ------------------------------------

  /** The characters `[^\s\)\]<>"]` a bare URL runs over. */
  predicate UrlChar(c: char) {
    !IsSpace(c) && c != ')' && c != ']' && c != '<' && c != '>' && c != '"'
  }

  function NotUrlChar(c: char): bool {
    !UrlChar(c)
  }

  predicate AllUrlChars(s: string) {
    forall k :: 0 <= k < |s| ==> UrlChar(s[k])
  }

  /**
   * `https?://[^\s\)\]<>"]+` tried at `i`; the index after the match. When
   * `s` follows `http`, `s?` takes it and a missing `://` after it fails the
   * match, since the alternative leaves `s` where `:` is needed. The run is
   * greedy and the pattern ends there, so the match is the longest run.
   */
  function UrlAt(s: string, i: nat): (r: Option<nat>)
    ensures r.Some? ==> i < r.value <= |s|
    ensures r.Some? ==> exists p :: UrlShape(s, i, p, r.value)
  {
    if i + 4 <= |s| && s[i..i + 4] == "http" then
      var p := if i + 4 < |s| && s[i + 4] == 's' then i + 5 else i + 4;
      if p + 3 <= |s| && s[p..p + 3] == "://" then
        var e := Until(s, p + 3, NotUrlChar);
        if e > p + 3 then
          assert UrlShape(s, i, p, e);
          Some(e)
        else None
      else None
    else None
  }

  /** `s[i..e]` is `http://` or `https://` (the scheme ending at `p`) and a longest non-empty run of URL characters. */
  predicate UrlShape(s: string, i: nat, p: nat, e: nat) {
    && i + 4 <= p <= i + 5 && p + 3 < e <= |s|
    && s[i..i + 4] == "http" && (p == i + 5 ==> s[i + 4] == 's')
    && s[p..p + 3] == "://" && AllUrlChars(s[p + 3..e]) && (e == |s| || !UrlChar(s[e]))
  }

  /** Conversely, a scheme followed by a URL character is always matched. */
  lemma UrlAtFinds(s: string, i: nat, p: nat)
    requires i + 4 <= p <= i + 5 && p + 3 < |s|
    requires s[i..i + 4] == "http" && (p == i + 5 <==> s[i + 4] == 's')
    requires s[p..p + 3] == "://" && UrlChar(s[p + 3])
    ensures UrlAt(s, i).Some?
  {
  }

  /** The markdown links numbered from `first` on as the first pass writes them: `[anchor]([LINK_nnnn])`. */
  function Converted(links: seq<MdLink>, first: nat): (r: seq<string>)
    ensures |r| == |links|
    ensures forall i :: 0 <= i < |links| ==> r[i] == "[" + links[i].anchor + "](" + Bracketed(first + i) + ")"
  {
    seq(|links|, i requires 0 <= i < |links| => "[" + links[i].anchor + "](" + Bracketed(first + i) + ")")
  }

  // ----- The template the two passes build -------------------------------

  /** Literal chunks with a link between each pair of neighbours. */
  datatype Template = Template(chunks: seq<string>, toks: seq<Tok>)

  predicate Wf(t: Template) {
    |t.chunks| == |t.toks| + 1
  }

  /** The text handed on: every link as its token `[LINK_nnnn]`. */
  function Sent(t: Template): string
    requires Wf(t)
  {
    Interleave(t.chunks, Tokens(t.toks))
  }

  /** The text the template came from: every link as its URL. */
  function Source(t: Template): string
    requires Wf(t)
  {
    Interleave(t.chunks, Urls(t.toks))
  }

  /** Literal text at the end of the template. */
  function AddText(t: Template, s: string): (r: Template)
    requires Wf(t)
    ensures Wf(r) && r.toks == t.toks
  {
    Template(t.chunks[..|t.chunks| - 1] + [t.chunks[|t.chunks| - 1] + s], t.toks)
  }

  lemma AddTextRenders(t: Template, s: string)
    requires Wf(t)
    ensures Sent(AddText(t, s)) == Sent(t) + s && Source(AddText(t, s)) == Source(t) + s
  {
    InterleaveAppendText(t.chunks, Tokens(t.toks), s);
    InterleaveAppendText(t.chunks, Urls(t.toks), s);
  }

  /** A link at the end of the template. */
  function AddTok(t: Template, k: Tok): (r: Template)
    requires Wf(t)
    ensures Wf(r) && r.toks == t.toks + [k]
  {
    Template(t.chunks + [""], t.toks + [k])
  }

  lemma AddTokRenders(t: Template, k: Tok)
    requires Wf(t)
    ensures Sent(AddTok(t, k)) == Sent(t) + Bracketed(k.id) && Source(AddTok(t, k)) == Source(t) + k.url
  {
    assert Tokens(t.toks + [k]) == Tokens(t.toks) + [Bracketed(k.id)];
    assert Urls(t.toks + [k]) == Urls(t.toks) + [k.url];
    InterleaveAppendFill(t.chunks, Tokens(t.toks), Bracketed(k.id));
    InterleaveAppendFill(t.chunks, Urls(t.toks), k.url);
  }

  /** A protected markdown link: the anchor stays, the target becomes token `id`. */
  function AddLink(t: Template, l: MdLink, id: nat): (r: Template)
    requires Wf(t)
    ensures Wf(r) && r.toks == t.toks + [Tok(id, l.url)]
  {
    AddText(AddTok(AddText(t, "[" + l.anchor + "]("), Tok(id, l.url)), ")")
  }

  /** The protected link is sent with its token in place of the target and renders back to the link itself. */
  lemma AddLinkRenders(t: Template, l: MdLink, id: nat)
    requires Wf(t)
    ensures Sent(AddLink(t, l, id)) == Sent(t) + ("[" + l.anchor + "](" + Bracketed(id) + ")")
    ensures Source(AddLink(t, l, id)) == Source(t) + LinkText(l.anchor, l.url)
  {
    var t1 := AddText(t, "[" + l.anchor + "](");
    var t2 := AddTok(t1, Tok(id, l.url));
    AddTextRenders(t, "[" + l.anchor + "](");
    AddTokRenders(t1, Tok(id, l.url));
    AddTextRenders(t2, ")");
  }

  /**
   * The second pass over one region: each bare URL becomes the next token,
   * numbered after the `base` markdown links and the bare URLs before it.
   */
  function UrlScan(g: string, i: nat, t: Template, bare: seq<Tok>, base: nat): (r: (Template, seq<Tok>))
    requires Wf(t) && i <= |g|
    ensures Wf(r.0)
    decreases |g| - i
  {
    if i == |g| then (t, bare)
    else match UrlAt(g, i)
      case Some(e) =>
        var k := Tok(base + |bare| + 1, g[i..e]);
        UrlScan(g, e, AddTok(t, k), bare + [k], base)
      case None => UrlScan(g, i + 1, AddText(t, [g[i]]), bare, base)
  }

  /** With the URLs in place of the tokens, the second pass gives back the region it scanned. */
  lemma {:induction false} UrlScanSource(g: string, i: nat, t: Template, bare: seq<Tok>, base: nat)
    requires Wf(t) && i <= |g|
    ensures Source(UrlScan(g, i, t, bare, base).0) == Source(t) + g[i..]
    decreases |g| - i
  {
    if i < |g| {
      var r := UrlScan(g, i, t, bare, base);
      match UrlAt(g, i)
      case Some(e) =>
        var k := Tok(base + |bare| + 1, g[i..e]);
        var t' := AddTok(t, k);
        assert r == UrlScan(g, e, t', bare + [k], base);
        AddTokRenders(t, k);
        UrlScanSource(g, e, t', bare + [k], base);
        SuffixSplit(g, i, e, g[i..e]);
        AppendGlue(Source(r.0), Source(t'), Source(t), g[i..e], g[e..], g[i..]);
      case None =>
        var t' := AddText(t, [g[i]]);
        assert r == UrlScan(g, i + 1, t', bare, base);
        AddTextRenders(t, [g[i]]);
        UrlScanSource(g, i + 1, t', bare, base);
        SuffixSplit(g, i, i + 1, [g[i]]);
        AppendGlue(Source(r.0), Source(t'), Source(t), [g[i]], g[i + 1..], g[i..]);
    }
  }

  /** The token facts a second-pass result `r` has after starting from `t` and `bare`. */
  predicate AppendsToks(r: (Template, seq<Tok>), t: Template, bare: seq<Tok>, base: nat) {
    && |bare| <= |r.1| && r.1[..|bare|] == bare
    && r.0.toks == t.toks + r.1[|bare|..]
    && forall k :: |bare| <= k < |r.1| ==> r.1[k].id == base + k + 1
  }

  /** The second pass appends its new tokens both to the template and to the bare URLs, numbered on from `base`. */
  lemma {:induction false} UrlScanToks(g: string, i: nat, t: Template, bare: seq<Tok>, base: nat)
    requires Wf(t) && i <= |g|
    ensures AppendsToks(UrlScan(g, i, t, bare, base), t, bare, base)
    decreases |g| - i
  {
    if i < |g| {
      match UrlAt(g, i)
      case Some(e) =>
        var k := Tok(base + |bare| + 1, g[i..e]);
        UrlScanToks(g, e, AddTok(t, k), bare + [k], base);
        AppendsToksCons(UrlScan(g, e, AddTok(t, k), bare + [k], base), t, bare, base, k);
      case None =>
        UrlScanToks(g, i + 1, AddText(t, [g[i]]), bare, base);
    }
  }

  lemma AppendsToksCons(r: (Template, seq<Tok>), t: Template, bare: seq<Tok>, base: nat, k: Tok)
    requires k.id == base + |bare| + 1
    requires AppendsToks(r, Template(t.chunks + [""], t.toks + [k]), bare + [k], base)
    ensures AppendsToks(r, t, bare, base)
  {
    assert r.1[..|bare|] == (r.1[..|bare| + 1])[..|bare|];
    assert r.1[|bare|..] == [k] + r.1[|bare| + 1..];
  }

  /**
   * The second pass over all regions, with the protected markdown links
   * `prot` between them: region `j` is scanned, then link `j + 1` follows.
   */
  function Assemble(regions: seq<string>, prot: seq<MdLink>, j: nat, t: Template, bare: seq<Tok>, base: nat)
    : (r: (Template, seq<Tok>))
    requires |regions| == |prot| + 1 && j <= |prot| && Wf(t)
    ensures Wf(r.0)
    decreases |prot| - j
  {
    var s := UrlScan(regions[j], 0, t, bare, base);
    if j == |prot| then s
    else Assemble(regions, prot, j + 1, AddLink(s.0, prot[j], j + 1), s.1, base)
  }

  /** One region of the second pass: its bare URLs, then the protected link after it unless it is the last. */
  lemma AssembleUnfold(regions: seq<string>, prot: seq<MdLink>, j: nat, t: Template, bare: seq<Tok>, base: nat,
                        t1: Template, bare1: seq<Tok>)
    requires |regions| == |prot| + 1 && j <= |prot| && Wf(t)
    requires (t1, bare1) == UrlScan(regions[j], 0, t, bare, base)
    ensures Assemble(regions, prot, j, t, bare, base)
      == if j == |prot| then (t1, bare1) else Assemble(regions, prot, j + 1, AddLink(t1, prot[j], j + 1), bare1, base)
  {
  }

  /** The template the second pass builds renders, with URLs, to the regions and protected links it was given. */
  lemma {:induction false} AssembleSource(regions: seq<string>, prot: seq<MdLink>, j: nat, t: Template, bare: seq<Tok>, base: nat)
    requires |regions| == |prot| + 1 && j <= |prot| && Wf(t)
    ensures Source(Assemble(regions, prot, j, t, bare, base).0) == Source(t) + Interleave(regions[j..], Sources(prot[j..]))
    decreases |prot| - j
  {
    var s := UrlScan(regions[j], 0, t, bare, base);
    UrlScanSource(regions[j], 0, t, bare, base);
    assert regions[j][0..] == regions[j];
    if j == |prot| {
      assert Interleave(regions[j..], Sources(prot[j..])) == regions[j];
    } else {
      var t' := AddLink(s.0, prot[j], j + 1);
      AddLinkRenders(s.0, prot[j], j + 1);
      AssembleSource(regions, prot, j + 1, t', s.1, base);
      AssembleStep(regions, prot, j);
      AppendAssoc(Source(t), regions[j], LinkText(prot[j].anchor, prot[j].url), Interleave(regions[j + 1..], Sources(prot[j + 1..])));
    }
  }

  lemma AppendAssoc(a: string, b: string, c: string, d: string)
    ensures a + b + c + d == a + (b + (c + d))
  {
  }

  lemma AssembleStep(regions: seq<string>, prot: seq<MdLink>, j: nat)
    requires |regions| == |prot| + 1 && j < |prot|
    ensures Interleave(regions[j..], Sources(prot[j..]))
      == regions[j] + (LinkText(prot[j].anchor, prot[j].url) + Interleave(regions[j + 1..], Sources(prot[j + 1..])))
  {
    InterleaveCons(regions[j..], Sources(prot[j..]));
    assert regions[j..][1..] == regions[j + 1..];
    assert Sources(prot[j..])[1..] == Sources(prot[j + 1..]);
  }

  /** Number of markdown links that get a four-digit number and are shielded from the second pass. */
  const Shielded: nat := 9999

  /** The markdown links as map entries: link `k` (from 1) gets `LINK_k`. */
  function MdToks(links: seq<MdLink>): (r: seq<Tok>)
    ensures |r| == |links| && forall i :: 0 <= i < |links| ==> r[i] == Tok(i + 1, links[i].url)
  {
    seq(|links|, i requires 0 <= i < |links| => Tok(i + 1, links[i].url))
  }

  /** What `preserve_links` returns: the processed text and a copy of the link map. */
  datatype Preserved = Preserved(text: string, linkMap: seq<Entry>)

  /** How many markdown links are shielded from the second pass. */
  function ShieldedCount(links: seq<MdLink>): (p: nat)
    ensures p <= |links| && p <= Shielded
    ensures p == |links| || p == Shielded
  {
    if |links| <= Shielded then |links| else Shielded
  }

  /** The text between shielded links, as the second pass sees it: later links stay in converted form. */
  function Regions(gaps: seq<string>, links: seq<MdLink>): (r: seq<string>)
    requires |gaps| == |links| + 1
    ensures |r| == ShieldedCount(links) + 1
  {
    var p := ShieldedCount(links);
    gaps[..p] + [Interleave(gaps[p..], Converted(links[p..], p + 1))]
  }

  /** The template and the bare URLs the second pass ends with. */
  function SecondPass(content: string): (Template, seq<Tok>) {
    var links := MdLinks(content);
    Assemble(Regions(Gaps(content), links), links[..ShieldedCount(links)], 0, Template([""], []), [], |links|)
  }

  /**
   * `preserve_links`. Markdown links are numbered first; the first 9999 of
   * them (those whose number has four digits) are shielded while bare URLs
   * are numbered, later ones are scanned as text.
   */
  function Preserve(content: string): Preserved {
    var (t, bare) := SecondPass(content);
    Preserved(Sent(t), Keyed(MdToks(MdLinks(content)) + bare))
  }

  // ----- The map preserve_links builds -----------------------------------

  /** After protected link `j` and the bare URLs `bare`: every token is one of those, each id once. */
  predicate IdsSoFar(t: Template, prot: seq<MdLink>, j: nat, bare: seq<Tok>, base: nat)
    requires j <= |prot|
  {
    && DistinctIds(t.toks)
    && TokSet(t.toks) == TokSet(MdToks(prot)[..j]) + TokSet(bare)
    && (forall k :: 0 <= k < |bare| ==> bare[k].id == base + k + 1)
  }

  /** So far, ids are at most `j` (protected links) or just above `base` (bare URLs). */
  lemma IdsBounded(t: Template, prot: seq<MdLink>, j: nat, bare: seq<Tok>, base: nat, i: nat)
    requires j <= |prot| && IdsSoFar(t, prot, j, bare, base) && i < |t.toks|
    ensures 1 <= t.toks[i].id <= j || base < t.toks[i].id <= base + |bare|
  {
    TokSetHas(t.toks, i);
    var x := t.toks[i];
    if x in TokSet(bare) {
      var k :| 0 <= k < |bare| && bare[k] == x;
    } else {
      var k :| 0 <= k < j && MdToks(prot)[..j][k] == x;
    }
  }

  lemma TokSetAppend(a: seq<Tok>, b: seq<Tok>)
    ensures TokSet(a + b) == TokSet(a) + TokSet(b)
  {
    forall x | x in TokSet(a + b) ensures x in TokSet(a) + TokSet(b) {
      var i :| 0 <= i < |a + b| && (a + b)[i] == x;
      if i < |a| { TokSetHas(a, i); } else { TokSetHas(b, i - |a|); }
    }
    forall x | x in TokSet(a) + TokSet(b) ensures x in TokSet(a + b) {
      if x in TokSet(a) {
        var i :| 0 <= i < |a| && a[i] == x;
        TokSetHas(a + b, i);
      } else {
        var i :| 0 <= i < |b| && b[i] == x;
        TokSetHas(a + b, |a| + i);
      }
    }
  }

  /** Scanning one region keeps the id facts: its new tokens are numbered above every earlier one. */
  lemma ScanIds(g: string, t: Template, prot: seq<MdLink>, j: nat, bare: seq<Tok>, base: nat)
    requires Wf(t) && j <= |prot| <= base && IdsSoFar(t, prot, j, bare, base)
    ensures var s := UrlScan(g, 0, t, bare, base); IdsSoFar(s.0, prot, j, s.1, base)
  {
    var s := UrlScan(g, 0, t, bare, base);
    UrlScanToks(g, 0, t, bare, base);
    var added := s.1[|bare|..];
    assert s.1 == bare + added;
    forall a, b | 0 <= a < b < |s.0.toks| ensures s.0.toks[a].id != s.0.toks[b].id {
      if a < |t.toks| && b >= |t.toks| {
        IdsBounded(t, prot, j, bare, base, a);
      }
    }
    TokSetAppend(t.toks, added);
    TokSetAppend(bare, added);
  }

  /** Adding protected link `j + 1` keeps the id facts. */
  lemma LinkIds(t: Template, prot: seq<MdLink>, j: nat, bare: seq<Tok>, base: nat)
    requires Wf(t) && j < |prot| <= base && IdsSoFar(t, prot, j, bare, base)
    ensures IdsSoFar(AddLink(t, prot[j], j + 1), prot, j + 1, bare, base)
  {
    var t' := AddLink(t, prot[j], j + 1);
    forall a, b | 0 <= a < b < |t'.toks| ensures t'.toks[a].id != t'.toks[b].id {
      if b == |t.toks| {
        IdsBounded(t, prot, j, bare, base, a);
      }
    }
    TokSetAppend(t.toks, [Tok(j + 1, prot[j].url)]);
    assert MdToks(prot)[..j + 1] == MdToks(prot)[..j] + [Tok(j + 1, prot[j].url)];
    TokSetAppend(MdToks(prot)[..j], [Tok(j + 1, prot[j].url)]);
  }

  /** One region and the protected link after it keep the id facts. */
  lemma RegionIds(g: string, t: Template, prot: seq<MdLink>, j: nat, bare: seq<Tok>, base: nat)
    requires Wf(t) && j < |prot| <= base && IdsSoFar(t, prot, j, bare, base)
    ensures var s := UrlScan(g, 0, t, bare, base); IdsSoFar(AddLink(s.0, prot[j], j + 1), prot, j + 1, s.1, base)
  {
    var s := UrlScan(g, 0, t, bare, base);
    ScanIds(g, t, prot, j, bare, base);
    LinkIds(s.0, prot, j, s.1, base);
  }

  /** The second pass gives every protected link and every bare URL exactly one token. */
  lemma {:induction false} AssembleIds(regions: seq<string>, prot: seq<MdLink>, j: nat, t: Template, bare: seq<Tok>, base: nat)
    requires |regions| == |prot| + 1 && j <= |prot| <= base && Wf(t)
    requires IdsSoFar(t, prot, j, bare, base)
    ensures var r := Assemble(regions, prot, j, t, bare, base); IdsSoFar(r.0, prot, |prot|, r.1, base)
    decreases |prot| - j
  {
    if j == |prot| {
      ScanIds(regions[j], t, prot, j, bare, base);
    } else {
      var t', bare' := AssembleIdsStep(regions, prot, j, t, bare, base);
      AssembleIds(regions, prot, j + 1, t', bare', base);
    }
  }

  /** One region and the protected link after it: the ids stay as the second pass promises. */
  lemma AssembleIdsStep(regions: seq<string>, prot: seq<MdLink>, j: nat, t: Template, bare: seq<Tok>, base: nat)
    returns (t': Template, bare': seq<Tok>)
    requires |regions| == |prot| + 1 && j < |prot| <= base && Wf(t)
    requires IdsSoFar(t, prot, j, bare, base)
    ensures Wf(t') && IdsSoFar(t', prot, j + 1, bare', base)
    ensures Assemble(regions, prot, j, t, bare, base) == Assemble(regions, prot, j + 1, t', bare', base)
  {
    var s := UrlScan(regions[j], 0, t, bare, base);
    t', bare' := AddLink(s.0, prot[j], j + 1), s.1;
    RegionIds(regions[j], t, prot, j, bare, base);
  }

  /** The second pass numbers the shielded links and the bare URLs, each once, bare URLs after all markdown links. */
  lemma SecondPassIds(content: string)
    ensures var links := MdLinks(content); var p := ShieldedCount(links);
      IdsSoFar(SecondPass(content).0, links[..p], p, SecondPass(content).1, |links|)
  {
    var links := MdLinks(content);
    var p := ShieldedCount(links);
    AssembleIds(Regions(Gaps(content), links), links[..p], 0, Template([""], []), [], |links|);
  }

  /** When every markdown link is shielded, the second pass's template renders, with URLs, to the input. */
  lemma SecondPassSource(content: string)
    requires |MdLinks(content)| <= Shielded
    ensures Source(SecondPass(content).0) == content
  {
    var gaps, links := Gaps(content), MdLinks(content);
    LinkScanSplits(content, 0, [""], []);
    var p := |links|;
    assert gaps[p..] == [gaps[p]];
    assert Regions(gaps, links) == gaps;
    assert links[..p] == links;
    AssembleSource(gaps, links, 0, Template([""], []), [], p);
    assert gaps[0..] == gaps && links[0..] == links;
  }

  /**
   * The link map has key `LINK_k` at position `k` (from 1), the markdown link
   * targets first and in order.
   */
  lemma PreserveKeys(content: string)
    ensures var m := Preserve(content).linkMap;
      && |MdLinks(content)| <= |m|
      && (forall i :: 0 <= i < |m| ==> m[i].key == Placeholder(i + 1))
      && (forall i :: 0 <= i < |MdLinks(content)| ==> m[i].url == MdLinks(content)[i].url)
  {
    MapIds(content);
    var links := MdLinks(content);
    var L := MdToks(links) + SecondPass(content).1;
    assert Preserve(content).linkMap == Keyed(L);
    forall i | 0 <= i < |links| ensures L[i].url == links[i].url {
      assert L[i] == MdToks(links)[i];
    }
  }

  /** The tokens of the map are numbered 1, 2, … in order: the markdown links first, then the bare URLs. */
  lemma MapIds(content: string)
    ensures var L := MdToks(MdLinks(content)) + SecondPass(content).1;
      forall i :: 0 <= i < |L| ==> L[i].id == i + 1
  {
    SecondPassIds(content);
  }

  /**
   * The round trip: restoring the processed text with the map that
   * `preserve_links` returned gives back the input, as long as the input
   * does not itself contain `LINK_` and every markdown link got a
   * four-digit number.
   */
  lemma PreserveRestore(content: string)
    requires !Contains(content, "LINK_")
    requires |MdLinks(content)| <= Shielded
    ensures Restore(Preserve(content).text, Preserve(content).linkMap) == content
  {
    var links := MdLinks(content);
    var (t, bare) := SecondPass(content);
    SecondPassIds(content);
    SecondPassSource(content);
    assert links[..|links|] == links;
    var L := MdToks(links) + bare;
    TokSetAppend(MdToks(links), bare);
    MapIds(content);
    RestoreTemplate(t.chunks, t.toks, L, content);
  }

  // ----- extract_links and validate_links --------------------------------

  /** `re.findall` of the bare URL pattern from `i` on: every match, left to right, without overlap. */
  function FindUrls(s: string, i: nat): (r: seq<string>)
    requires i <= |s|
    ensures forall k :: 0 <= k < |r| ==> |r[k]| > 0
    decreases |s| - i
  {
    if i == |s| then []
    else match UrlAt(s, i)
      case Some(e) => [s[i..e]] + FindUrls(s, e)
      case None => FindUrls(s, i + 1)
  }

  /** Every URL `FindUrls` reports is a match of the bare URL pattern at some `a` in `s`. */
  predicate UrlMatchAt(s: string, a: nat, u: string) {
    a + |u| <= |s| && UrlAt(s, a) == Some(a + |u|) && s[a..a + |u|] == u
  }

  lemma {:induction false} FindUrlsMatch(s: string, i: nat, k: nat)
    requires i <= |s| && k < |FindUrls(s, i)|
    ensures exists a :: i <= a && UrlMatchAt(s, a, FindUrls(s, i)[k])
    decreases |s| - i
  {
    var r := FindUrls(s, i);
    match UrlAt(s, i)
    case Some(e) =>
      assert r == [s[i..e]] + FindUrls(s, e);
      if k > 0 {
        assert r[k] == FindUrls(s, e)[k - 1];
        FindUrlsMatch(s, e, k - 1);
        var a :| e <= a && UrlMatchAt(s, a, FindUrls(s, e)[k - 1]);
        assert UrlMatchAt(s, a, r[k]);
      } else {
        assert UrlMatchAt(s, i, r[k]);
      }
    case None =>
      assert r == FindUrls(s, i + 1);
      FindUrlsMatch(s, i + 1, k);
  }

  /** The markdown link targets that are not placeholders. */
  function MdTargets(links: seq<MdLink>): (r: seq<string>)
    ensures |r| <= |links|
    ensures forall u :: u in r <==> exists l :: l in links && l.url == u && !StartsWith(u, "[LINK_")
  {
    if |links| == 0 then []
    else
      var rest := MdTargets(links[..|links| - 1]);
      var l := links[|links| - 1];
      assert forall x :: x in links <==> x in links[..|links| - 1] || x == l;
      if StartsWith(l.url, "[LINK_") then rest else rest + [l.url]
  }

  /** `urls` in order, leaving out those in `seen` and repeats. */
  function Unseen(urls: seq<string>, seen: seq<string>): (r: seq<string>)
  {
    if |urls| == 0 then []
    else
      var r := Unseen(urls[..|urls| - 1], seen);
      if urls[|urls| - 1] in seen + r then r else r + [urls[|urls| - 1]]
  }

  /** One more link: its target joins the targets unless it is a placeholder. */
  lemma MdTargetsStep(links: seq<MdLink>, k: nat)
    requires k < |links|
    ensures MdTargets(links[..k + 1])
      == MdTargets(links[..k]) + (if StartsWith(links[k].url, "[LINK_") then [] else [links[k].url])
  {
    assert links[..k + 1][..k] == links[..k];
  }

  /** One more URL: it joins the new URLs unless already seen there or in `seen`. */
  lemma UnseenStep(urls: seq<string>, k: nat, seen: seq<string>)
    requires k < |urls|
    ensures var r := Unseen(urls[..k], seen);
      Unseen(urls[..k + 1], seen) == if urls[k] in seen + r then r else r + [urls[k]]
  {
    assert urls[..k + 1][..k] == urls[..k];
  }

  /** `Unseen` keeps exactly the new URLs, each once. */
  lemma {:induction false} UnseenMembers(urls: seq<string>, seen: seq<string>)
    ensures var r := Unseen(urls, seen);
      && (forall u :: u in r <==> u in urls && u !in seen)
      && (forall a, b :: 0 <= a < b < |r| ==> r[a] != r[b])
    decreases |urls|
  {
    if |urls| > 0 {
      var init := urls[..|urls| - 1];
      UnseenMembers(init, seen);
      assert forall x :: x in urls <==> x in init || x == urls[|urls| - 1];
    }
  }

  /** What `extract_links` returns. */
  function Extracted(content: string): seq<string> {
    var targets := MdTargets(MdLinks(content));
    targets + Unseen(FindUrls(content, 0), targets)
  }

  /** The links `extract_links` reports: the non-placeholder markdown targets and the bare URLs. */
  function LinkSet(content: string): set<string> {
    (set u | u in MdTargets(MdLinks(content))) + (set u | u in FindUrls(content, 0))
  }

  lemma ExtractedSet(content: string)
    ensures (set u | u in Extracted(content)) == LinkSet(content)
  {
    UnseenMembers(FindUrls(content, 0), MdTargets(MdLinks(content)));
  }

  /** `success_rate` as the fraction it is computed from: 100% when the original has no links. */
  datatype Rate = NoLinks | Ratio(kept: nat, total: nat)

  /** The rate reads 100%. */
  predicate Hundred(r: Rate) {
    r.NoLinks? || r.kept == r.total
  }

  datatype Validation = Validation(
    totalOriginal: nat, totalProcessed: nat, preserved: nat,
    missing: set<string>, added: set<string>, successRate: Rate)

  /** The comparison `validate_links` makes of two link sets. */
  function Compare(o: set<string>, p: set<string>): (r: Validation)
    ensures r.missing == o - p && r.added == p - o
    ensures r.totalOriginal == |o| && r.totalProcessed == |p|
    ensures r.totalOriginal == r.preserved + |r.missing|
    ensures r.totalProcessed == r.preserved + |r.added|
    ensures r.successRate.Ratio? ==> 0 < r.successRate.total && r.successRate.kept <= r.successRate.total
  {
    var kept := o * p;
    assert o == kept + (o - p) && kept !! (o - p);
    assert p == kept + (p - o) && kept !! (p - o);
    Validation(|o|, |p|, |kept|, o - p, p - o, if |o| == 0 then NoLinks else Ratio(|kept|, |o|))
  }

  /** `validate_links`: the original's links compared with the processed text's. */
  function Validate(original: string, processed: string): Validation {
    Compare(LinkSet(original), LinkSet(processed))
  }

  /** The rate is 100% exactly when no link went missing. */
  lemma CompareFull(o: set<string>, p: set<string>)
    ensures Hundred(Compare(o, p).successRate) <==> Compare(o, p).missing == {}
  {
    var r := Compare(o, p);
    if r.missing == {} {
      assert r.preserved == r.totalOriginal;
    }
  }

  /** Comparing a text with itself finds every link preserved. */
  lemma ValidateSame(content: string)
    ensures Validate(content, content).missing == {} && Validate(content, content).added == {}
    ensures Hundred(Validate(content, content).successRate)
  {
    CompareFull(LinkSet(content), LinkSet(content));
  }

  // ----- The LinkPreserver object ----------------------------------------

  /** Keys the restore loop can use as regular expressions that match only themselves. */
  predicate PlainKey(key: string) {
    |key| > 0 && forall k :: 0 <= k < |key| ==> key[k] == '_' || IsDigit(key[k]) || 'A' <= key[k] <= 'Z' || 'a' <= key[k] <= 'z'
  }

  /** Maps the restore loop handles literally: plain keys, URLs without the `\\` escapes `re.sub` would expand. */
  predicate Literal(m: seq<Entry>) {
    forall k :: 0 <= k < |m| ==> PlainKey(m[k].key) && '\\' !in m[k].url
  }

  lemma LiteralKeys(m: seq<Entry>)
    requires Literal(m)
    ensures KeysNonEmpty(m)
  {
    forall k | 0 <= k < |m| ensures |m[k].key| > 0 {
      assert PlainKey(m[k].key);
    }
  }

  /** Restoring from entry `k` on is one restore step and then restoring from `k + 1` on. */
  lemma RestoreFrom(text: string, m: seq<Entry>, k: nat)
    requires KeysNonEmpty(m) && k < |m|
    ensures Restore(text, m[k..]) == Restore(RestoreStep(text, m[k]), m[k + 1..])
  {
    assert m[k..][1..] == m[k + 1..];
  }

  /** Holds the map of the last `preserve_links` call. */
  class Preserver {
    var linkMap: seq<Entry>

    constructor()
      ensures linkMap == []
    {
      linkMap := [];
    }

    /** The first pass: each markdown link's target enters `linkMap` under the next number. */
    method LinkPass(content: string) returns (gaps: seq<string>, links: seq<MdLink>)
      modifies this
      ensures gaps == Gaps(content) && links == MdLinks(content)
      ensures linkMap == Keyed(MdToks(links))
    {
      linkMap := [];
      var i := 0;
      gaps, links := [""], [];
      while i < |content|
        invariant i <= |content| && |gaps| == |links| + 1
        invariant LinkScan(content, i, gaps, links) == LinkScan(content, 0, [""], [])
        invariant linkMap == Keyed(MdToks(links))
        decreases |content| - i
      {
        var l := LinkAt(content, i);
        if l.Some? {
          KeyedMdToksSnoc(links, MdLink(l.value.anchor, l.value.url));
          linkMap := linkMap + [Entry(Placeholder(|links| + 1), l.value.url)];
          links := links + [MdLink(l.value.anchor, l.value.url)];
          gaps := gaps + [""];
          i := l.value.end;
        } else {
          gaps := gaps[..|gaps| - 1] + [gaps[|gaps| - 1] + [content[i]]];
          i := i + 1;
        }
      }
    }

    /**
     * The second pass over one region: each bare URL is sent as its token
     * and enters `linkMap` under the next number; other text is copied.
     */
    method UrlPass(g: string, ghost t: Template, bare: seq<Tok>, base: nat, ghost before: seq<Tok>, processed: string)
      returns (ghost t': Template, bare': seq<Tok>, processed': string)
      modifies this
      requires Wf(t) && processed == Sent(t) && linkMap == Keyed(before + bare)
      ensures (t', bare') == UrlScan(g, 0, t, bare, base)
      ensures Wf(t') && processed' == Sent(t') && linkMap == Keyed(before + bare')
    {
      t', bare', processed' := t, bare, processed;
      var k := 0;
      while k < |g|
        invariant k <= |g| && Wf(t') && processed' == Sent(t')
        invariant linkMap == Keyed(before + bare')
        invariant UrlScan(g, k, t', bare', base) == UrlScan(g, 0, t, bare, base)
        decreases |g| - k
      {
        var e := UrlAt(g, k);
        if e.Some? {
          var tok := Tok(base + |bare'| + 1, g[k..e.value]);
          AddTokRenders(t', tok);
          processed' := processed' + Bracketed(tok.id);
          linkMap := linkMap + [Entry(Placeholder(tok.id), tok.url)];
          KeyedSnoc(before, bare', tok);
          t', bare' := AddTok(t', tok), bare' + [tok];
          k := e.value;
        } else {
          AddTextRenders(t', [g[k]]);
          processed' := processed' + [g[k]];
          t' := AddText(t', [g[k]]);
          k := k + 1;
        }
      }
    }

    /**
     * `preserve_links`: markdown links first, then the bare URLs around the
     * shielded ones; the map is kept in `linkMap` and a copy returned.
     */
    method PreserveLinks(content: string) returns (processed: string, mapCopy: seq<Entry>)
      modifies this
      ensures Preserved(processed, mapCopy) == Preserve(content)
      ensures linkMap == mapCopy
    {
      var gaps, links := LinkPass(content);
      var base := |links|;
      var p := ShieldedCount(links);
      var regions := Regions(gaps, links);
      var prot := links[..p];
      ghost var t := Template([""], []);
      var bare: seq<Tok> := [];
      assert MdToks(links) + bare == MdToks(links);
      processed := "";
      var j := 0;
      while j <= p
        invariant j <= p + 1 && Wf(t) && processed == Sent(t)
        invariant linkMap == Keyed(MdToks(links) + bare)
        invariant j <= p ==> Assemble(regions, prot, j, t, bare, base) == SecondPass(content)
        invariant j == p + 1 ==> (t, bare) == SecondPass(content)
      {
        t, bare, processed := RegionPass(regions, prot, j, t, bare, base, MdToks(links), processed);
        j := j + 1;
      }
      mapCopy := linkMap;
    }

    /** One round of the second pass: the bare URLs of region `j`, then protected link `j` unless it is the last region. */
    method RegionPass(regions: seq<string>, prot: seq<MdLink>, j: nat, ghost t: Template, bare: seq<Tok>, base: nat,
                      ghost before: seq<Tok>, processed: string)
      returns (ghost t': Template, bare': seq<Tok>, processed': string)
      modifies this
      requires |regions| == |prot| + 1 && j <= |prot| && Wf(t)
      requires processed == Sent(t) && linkMap == Keyed(before + bare)
      ensures Wf(t') && processed' == Sent(t') && linkMap == Keyed(before + bare')
      ensures Assemble(regions, prot, j, t, bare, base)
        == if j == |prot| then (t', bare') else Assemble(regions, prot, j + 1, t', bare', base)
    {
      t', bare', processed' := UrlPass(regions[j], t, bare, base, before, processed);
      AssembleUnfold(regions, prot, j, t, bare, base, t', bare');
      if j < |prot| {
        AddLinkRenders(t', prot[j], j + 1);
        processed' := processed' + ("[" + prot[j].anchor + "](" + Bracketed(j + 1) + ")");
        t' := AddLink(t', prot[j], j + 1);
      }
    }

    /**
     * `restore_links`: with no map given, the one of the last
     * `preserve_links` call; each entry replaces its bracketed key if the
     * text has it, else its bare key.
     */
    method RestoreLinks(content: string, given: Option<seq<Entry>>) returns (restored: string)
      requires Literal(if given.Some? then given.value else linkMap)
      ensures var m := if given.Some? then given.value else linkMap;
        KeysNonEmpty(m) && restored == Restore(content, m)
    {
      var m := if given.Some? then given.value else linkMap;
      LiteralKeys(m);
      if |m| == 0 {
        return content;
      }
      restored := content;
      var k := 0;
      while k < |m|
        invariant k <= |m|
        invariant Restore(restored, m[k..]) == Restore(content, m)
      {
        RestoreFrom(restored, m, k);
        restored := RestoreEntry(restored, m[k]);
        k := k + 1;
      }
    }

    /** One entry of the restore loop: the bracketed key if the text has it, else the bare key, else nothing. */
    method RestoreEntry(text: string, e: Entry) returns (r: string)
      requires |e.key| > 0
      ensures r == RestoreStep(text, e)
    {
      var bracketed := "[" + e.key + "]";
      r := text;
      if Find(text, bracketed) >= 0 {
        r := ReplaceAll(text, bracketed, e.url);
      } else if Find(text, e.key) >= 0 {
        r := ReplaceAll(text, e.key, e.url);
      }
    }

    /** `extract_links`: the markdown targets that are not placeholders, then each new bare URL once. */
    method ExtractLinks(content: string) returns (found: seq<string>)
      ensures found == Extracted(content)
    {
      var targets := CollectTargets(MdLinks(content));
      found := AppendUnseen(targets, FindUrls(content, 0));
    }

    /** The first loop of `extract_links`: the targets of the markdown links, placeholders skipped. */
    method CollectTargets(md: seq<MdLink>) returns (found: seq<string>)
      ensures found == MdTargets(md)
    {
      found := [];
      var k := 0;
      while k < |md|
        invariant k <= |md| && found == MdTargets(md[..k])
      {
        MdTargetsStep(md, k);
        if !StartsWith(md[k].url, "[LINK_") {
          found := found + [md[k].url];
        }
        k := k + 1;
      }
      assert md[..|md|] == md;
    }

    /** The second loop of `extract_links`: each bare URL not found yet, appended once. */
    method AppendUnseen(targets: seq<string>, plain: seq<string>) returns (found: seq<string>)
      ensures found == targets + Unseen(plain, targets)
    {
      found := targets;
      var k := 0;
      while k < |plain|
        invariant k <= |plain| && found == targets + Unseen(plain[..k], targets)
      {
        UnseenStep(plain, k, targets);
        if plain[k] !in found {
          found := found + [plain[k]];
        }
        k := k + 1;
      }
      assert plain[..|plain|] == plain;
    }
  }
}
