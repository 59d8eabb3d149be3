/** The metadata extractor shared by the post listing page and the homepage:
    find the first `export const meta = {...};` block in an MDX document and
    evaluate the captured object literal. */
module MetaExtract {
  import opened Common
  import opened Strings

  /** The declaration text in front of the captured literal. */
  const DeclPrefix: string := "export const meta = "

  /** Where a match of `/export const meta = ({[\s\S]*?});/` must begin. */
  const StartToken: string := "export const meta = {"

  /** The `};` that ends the lazy match. */
  const Terminator: string := "};"

  /** What evaluating the captured literal yields; each field may be absent
      from the object. */
  datatype RawMeta = RawMeta(title: Option<string>, description: Option<string>, date: Option<string>)

  /** Reference reading of the regex at one start position: the start token at
      `p`, and `q` the FIRST `};` at or after the character following the `{`
      (the lazy `[\s\S]*?` may match nothing, so `{};` is a match). */
  predicate MatchAt(text: string, p: nat, q: nat) {
    && StartsAt(text, p, StartToken)
    && p + |StartToken| <= q
    && StartsAt(text, q, Terminator)
    && forall k: nat :: p + |StartToken| <= k < q ==> !StartsAt(text, k, Terminator)
  }

  /** The captured group 1 of the regex, or `None` when the regex does not
      match: the literal from the `{` of the first start token up to the first
      `};` after it. */
  function FindMetaBlock(text: string): (r: Option<string>)
    ensures r.Some? ==> 2 <= |r.value| && r.value[0] == '{' && r.value[|r.value| - 1] == '}'
  {
    match FindFrom(text, StartToken, 0)
    case None => None
    case Some(p) =>
      match FindFrom(text, Terminator, p + |StartToken|)
      case None => None
      case Some(q) =>
        assert text[p..p + |StartToken|] == StartToken;
        assert text[p + |DeclPrefix|] == StartToken[|DeclPrefix|] == '{';
        assert text[q..q + 2] == Terminator;
        assert text[q] == text[q..q + 2][0] == Terminator[0] == '}';
        var lit := text[p + |DeclPrefix|..q + 1];
        assert lit[0] == '{' && lit[|lit| - 1] == '}';
        Some(lit)
  }

  /** `FindMetaBlock` is the regex's match: there is one iff the start token is
      followed somewhere by `};`, and then it starts at the FIRST start token
      (the leftmost match) and ends at the first `};` after it (the lazy,
      shortest match). */
  lemma FindMetaBlockIsRegexMatch(text: string)
    ensures FindMetaBlock(text).None? <==>
      !exists p: nat, q: nat :: StartsAt(text, p, StartToken) && p + |StartToken| <= q && StartsAt(text, q, Terminator)
    ensures FindMetaBlock(text).Some? ==>
      exists p: nat, q: nat ::
        && MatchAt(text, p, q)
        && (forall p': nat :: p' < p ==> !StartsAt(text, p', StartToken))
        && FindMetaBlock(text).value == text[p + |DeclPrefix|..q + 1]
  {
    match FindFrom(text, StartToken, 0)
    case None =>
    case Some(p) =>
      match FindFrom(text, Terminator, p + |StartToken|)
      case None =>
        forall p': nat, q': nat | StartsAt(text, p', StartToken) && p' + |StartToken| <= q'
          ensures !StartsAt(text, q', Terminator)
        {
          assert p <= p';
        }
      case Some(q) =>
        assert MatchAt(text, p, q);
  }

  /** A block whose own `;` is missing is still matched when some `};` follows
      anywhere later in the page: the capture starts at the block's `{` and
      runs on to that later `};`. */
  lemma UnterminatedBlockRunsOn(rest: string, more: string)
    ensures var text := StartToken + rest + Terminator + more;
      FindMetaBlock(text).Some? && FindMetaBlock(text).value <= text[|DeclPrefix|..]
  {
    var text := StartToken + rest + Terminator + more;
    assert StartsAt(text, 0, StartToken) by {
      assert text[..|StartToken|] == StartToken;
    }
    var q := |StartToken| + |rest|;
    assert StartsAt(text, q, Terminator) by {
      assert text[q..q + |Terminator|] == Terminator;
    }
    FindMetaBlockIsRegexMatch(text);
    var p: nat, q': nat :| MatchAt(text, p, q')
      && (forall p': nat :: p' < p ==> !StartsAt(text, p', StartToken))
      && FindMetaBlock(text).value == text[p + |DeclPrefix|..q' + 1];
    assert p == 0;
  }

  /** `extractMetadata`: a read failure (`content == None`), a missing block and
      an evaluation failure all come out as `None`; nothing is propagated.
      `eval` stands for `new Function("return " + literal)()`, with `None` for a
      throw or a nullish value. */
  function ExtractMetadata(content: Option<string>, eval: string -> Option<RawMeta>): (r: Option<RawMeta>)
    ensures content.None? ==> r.None?
    ensures content.Some? && FindMetaBlock(content.value).None? ==> r.None?
    ensures content.Some? && FindMetaBlock(content.value).Some? ==> r == eval(FindMetaBlock(content.value).value)
  {
    match content
    case None => None
    case Some(text) =>
      match FindMetaBlock(text)
      case None => None
      case Some(lit) =>
        // The source also tests the captured group for truthiness; a captured
        // literal always starts with `{`, so that test never fails.
        if lit != "" then eval(lit) else None
  }

  /** A document that opens with a block whose body has no `}` yields exactly
      that block's literal, whatever follows it. */
  lemma BlockAtStart(body: string, rest: string)
    requires '}' !in body
    ensures FindMetaBlock(StartToken + body + Terminator + rest) == Some("{" + body + "}")
  {
    var text := StartToken + body + Terminator + rest;
    var q := |StartToken| + |body|;
    assert StartsAt(text, 0, StartToken) by {
      assert text[..|StartToken|] == StartToken;
    }
    assert StartsAt(text, q, Terminator) by {
      assert text[q..q + 2] == Terminator;
    }
    forall k: nat | |StartToken| <= k < q ensures !StartsAt(text, k, Terminator) {
      assert text[k] == body[k - |StartToken|];
    }
    assert FindFrom(text, StartToken, 0) == Some(0);
    assert FindFrom(text, Terminator, |StartToken|) == Some(q);
    assert text[|DeclPrefix|..q + 1] == "{" + body + "}";
  }
}
