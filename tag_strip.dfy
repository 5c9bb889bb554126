/**
 * The tag stripping of `extractDocxText`: the HTML that the DOCX converter
 * produces goes through `replace(/<[^>]*>/g, ' ')`, which replaces every
 * tag, from a `<` to the first `>` after it, by a single space.
 */
module TagStrip {
  import opened Wrappers
  import opened Text

  /** No `<` is followed, anywhere later, by a `>`. */
  predicate NoTagLeft(s: string)
  {
    forall p, q :: 0 <= p < q < |s| && s[p] == '<' ==> s[q] != '>'
  }

  /**
   * The global replace as the regular-expression engine runs it, left to
   * right: at a `<` that has a `>` somewhere after it, the tag up to the
   * first such `>` becomes one space; any other character is kept.
   */
  function StripTags(html: string): (r: string)
    ensures |r| <= |html|
    ensures forall i :: 0 <= i < |r| ==> r[i] in html || r[i] == ' '
    ensures NoTagLeft(r)
    decreases |html|
  {
    if html == [] then []
    else if html[0] == '<' then
      match IndexOf(html[1..], '>')
      case Some(k) =>
        var rest := StripTags(html[k + 2..]);
        assert forall i :: 0 <= i < |rest| ==> rest[i] in html || rest[i] == ' ' by {
          forall i | 0 <= i < |rest| && rest[i] in html[k + 2..] ensures rest[i] in html {
            var j :| 0 <= j < |html[k + 2..]| && html[k + 2..][j] == rest[i];
            assert html[j + k + 2] == rest[i];
          }
        }
        [' '] + rest
      case None =>
        var rest := StripTags(html[1..]);
        assert '>' !in rest;
        [html[0]] + rest
    else
      [html[0]] + StripTags(html[1..])
  }

  /** A piece of the input: a character kept as it is, or a tag `<body>`. */
  datatype Piece = Kept(c: char) | Tag(body: string)

  /** The input that a sequence of pieces spells. */
  function Flatten(ps: seq<Piece>): string
  {
    if ps == [] then []
    else match ps[0]
      case Kept(c) => [c] + Flatten(ps[1..])
      case Tag(body) => ['<'] + body + ['>'] + Flatten(ps[1..])
  }

  /** The intended output: kept characters in order, one space per tag. */
  function Render(ps: seq<Piece>): string
  {
    if ps == [] then []
    else match ps[0]
      case Kept(c) => [c] + Render(ps[1..])
      case Tag(_) => [' '] + Render(ps[1..])
  }

  /**
   * The pieces are the ones a leftmost scan with `<[^>]*>` finds: a tag body
   * holds no `>`, and a `<` is kept only when no `>` follows it at all.
   */
  predicate LeftmostTags(ps: seq<Piece>)
  {
    if ps == [] then true
    else
      && (match ps[0]
          case Kept(c) => c == '<' ==> '>' !in Flatten(ps[1..])
          case Tag(body) => '>' !in body)
      && LeftmostTags(ps[1..])
  }

  /** Stripping replaces each tag of the leftmost decomposition by one space and keeps every other character, in order. */
  lemma {:induction false} StripTagsRendersPieces(ps: seq<Piece>)
    requires LeftmostTags(ps)
    ensures StripTags(Flatten(ps)) == Render(ps)
  {
    if ps != [] {
      StripTagsRendersPieces(ps[1..]);
      match ps[0]
      case Kept(c) => StripKept(c, Flatten(ps[1..]));
      case Tag(body) => StripTag(body, Flatten(ps[1..]));
    }
  }

  /** A tag at the front becomes one space. */
  lemma StripTag(body: string, rest: string)
    requires '>' !in body
    ensures StripTags(['<'] + body + ['>'] + rest) == [' '] + StripTags(rest)
  {
    var s := ['<'] + body + ['>'] + rest;
    var k := |body|;
    assert s[1..] == body + ['>'] + rest;
    assert s[1..][k] == '>';
    assert s[k + 2..] == rest;
  }

  /** A character at the front that starts no tag is kept. */
  lemma StripKept(c: char, rest: string)
    requires c == '<' ==> '>' !in rest
    ensures StripTags([c] + rest) == [c] + StripTags(rest)
  {
    var s := [c] + rest;
    assert s[1..] == rest;
    if c == '<' {
      assert IndexOf(s[1..], '>').None?;
    }
  }

  /** Every input has a leftmost decomposition, so the lemma above describes every output. */
  lemma {:induction false} LeftmostTagsExist(html: string)
    ensures exists ps :: Flatten(ps) == html && LeftmostTags(ps)
    decreases |html|
  {
    if html == [] {
      assert Flatten([]) == html && LeftmostTags([]);
    } else if html[0] == '<' && IndexOf(html[1..], '>').Some? {
      var k := IndexOf(html[1..], '>').value;
      LeftmostTagsExist(html[k + 2..]);
      var ps :| Flatten(ps) == html[k + 2..] && LeftmostTags(ps);
      var body := html[1..k + 1];
      assert body == html[1..][..k];
      assert html == ['<'] + body + ['>'] + html[k + 2..];
      assert Flatten([Tag(body)] + ps) == html by {
        assert ([Tag(body)] + ps)[1..] == ps;
      }
      assert LeftmostTags([Tag(body)] + ps) by {
        assert ([Tag(body)] + ps)[1..] == ps;
      }
    } else {
      LeftmostTagsExist(html[1..]);
      var ps :| Flatten(ps) == html[1..] && LeftmostTags(ps);
      assert html == [html[0]] + html[1..];
      assert ([Kept(html[0])] + ps)[1..] == ps;
      assert Flatten([Kept(html[0])] + ps) == html;
      assert LeftmostTags([Kept(html[0])] + ps);
    }
  }
}
