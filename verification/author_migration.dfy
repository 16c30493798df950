/**
 * Data migration 0002 of the `quotes` app: the old free-text `author`
 * ("name / work") is split into `author_name` and `source`.
 */
module AuthorMigration {
  import opened Wrappers
  import opened Strings

  datatype AuthorFields = AuthorFields(authorName: string, source: string)

  const SpacedSlash: string := " / "

  /** A value `str.strip()` leaves alone. */
  predicate Clean(s: string) {
    s == [] || (!IsPythonSpace(s[0]) && !IsPythonSpace(s[|s| - 1]))
  }

  /** Both parts around the separator `author[i..i + width]`, stripped. */
  function SplitAt(author: string, i: nat, width: nat): (r: AuthorFields)
    requires i + width <= |author|
    ensures Clean(r.authorName) && Clean(r.source)
  {
    StripIsClean(author[..i], IsPythonSpace);
    StripIsClean(author[i + width..], IsPythonSpace);
    AuthorFields(PyStrip(author[..i]), PyStrip(author[i + width..]))
  }

  /** `i` is where `pat` first occurs in `s`. */
  predicate FirstOccurrence(s: string, pat: string, i: int) {
    OccursAt(s, pat, i) && forall j :: 0 <= j < i ==> !OccursAt(s, pat, j)
  }

  /**
   * `migrate_author_data` on one quote: `None` when `author` is empty (the
   * row is not touched); else split once at the first " / ", or failing
   * that at the first "/", stripping both parts; an author without any "/"
   * becomes the name, unstripped, with an empty source.
   */
  function SplitAuthor(author: string): (r: Option<AuthorFields>)
    ensures r.None? <==> author == ""
    ensures r.Some? && '/' !in author ==> r.value == AuthorFields(author, "")
    ensures r.Some? && '/' in author ==> Clean(r.value.authorName) && Clean(r.value.source)
    ensures r.Some? && Contains(author, SpacedSlash) ==> !Contains(r.value.authorName, SpacedSlash)
    ensures r.Some? && !Contains(author, SpacedSlash) && '/' in author ==> '/' !in r.value.authorName
    ensures r.Some? && Contains(author, SpacedSlash) ==>
      exists i :: FirstOccurrence(author, SpacedSlash, i)
        && r.value == AuthorFields(PyStrip(author[..i]), PyStrip(author[i + |SpacedSlash|..]))
    ensures r.Some? && !Contains(author, SpacedSlash) && '/' in author ==>
      exists i :: 0 <= i < |author| && author[i] == '/' && '/' !in author[..i]
        && r.value == AuthorFields(PyStrip(author[..i]), PyStrip(author[i + 1..]))
  {
    if author == "" then None
    else if Contains(author, SpacedSlash) then
      var i := Find(author, SpacedSlash).value;
      NoEarlierOccurrence(author, i);
      SpacedSlashHasSlash(author, i);
      assert FirstOccurrence(author, SpacedSlash, i);
      Some(SplitAt(author, i, |SpacedSlash|))
    else if '/' in author then
      var i := IndexOfChar(author, '/');
      StripKeepsCharOut(author[..i], '/');
      assert author[i] == '/' && '/' !in author[..i];
      Some(SplitAt(author, i, 1))
    else
      Some(AuthorFields(author, ""))
  }

  /** The part before the first " / ", once stripped, contains no " / ". */
  lemma NoEarlierOccurrence(author: string, i: nat)
    requires Find(author, SpacedSlash) == Some(i)
    ensures !Contains(PyStrip(author[..i]), SpacedSlash)
  {
    var k := StrippedPrefixPiece(author, i, IsPythonSpace);
    InfixBeforeFirstOccurrence(author, i, k, PyStrip(author[..i]));
    NowhereMeansAbsent(PyStrip(author[..i]), SpacedSlash);
  }

  /** The stripped prefix `author[..i]` is the piece of `author` starting at the returned offset. */
  lemma StrippedPrefixPiece(author: string, i: nat, ws: char -> bool) returns (k: nat)
    requires i <= |author|
    ensures k + |Strip(author[..i], ws)| <= i
    ensures Strip(author[..i], ws) == author[k..k + |Strip(author[..i], ws)|]
  {
    var p := author[..i];
    StripIsInfix(p, ws);
    k := |p| - |TrimStart(p, ws)|;
    SliceOfSlice(author, 0, i, k, k + |Strip(p, ws)|);
  }

  /** A piece lying before the first " / " of a string holds no " / ". */
  lemma InfixBeforeFirstOccurrence(author: string, i: nat, k: nat, r: string)
    requires k + |r| <= i <= |author| && r == author[k..k + |r|]
    requires forall m :: 0 <= m < i ==> !OccursAt(author, SpacedSlash, m)
    ensures forall j :: 0 <= j ==> !OccursAt(r, SpacedSlash, j)
  {
    forall j | 0 <= j ensures !OccursAt(r, SpacedSlash, j) {
      OccursInInfix(author, k, r, SpacedSlash, j);
    }
  }

  lemma NowhereMeansAbsent(s: string, pat: string)
    requires forall j :: 0 <= j ==> !OccursAt(s, pat, j)
    ensures !Contains(s, pat)
  {
  }

  lemma SpacedSlashHasSlash(author: string, i: int)
    requires OccursAt(author, SpacedSlash, i)
    ensures '/' in author
  {
    assert author[i..i + 3][1] == author[i + 1];
  }

  /** An occurrence of " / " has its slash one character in. */
  lemma SlashInTheMiddle(s: string, j: int)
    ensures OccursAt(s, SpacedSlash, j) ==> 0 <= j && j + 1 < |s| && s[j + 1] == '/'
  {
    if OccursAt(s, SpacedSlash, j) {
      assert s[j..j + 3][1] == s[j + 1];
    }
  }

  lemma StripKeepsCharOut(s: string, c: char)
    requires c !in s
    ensures c !in PyStrip(s)
  {
    StripIsInfix(s, IsPythonSpace);
  }

  /**
   * Round trip of the " / " form: a clean name without any "/" and a clean
   * source (which may itself contain separators) are recovered exactly.
   */
  lemma SpacedSlashRoundTrip(name: string, source: string)
    requires Clean(name) && Clean(source)
    requires '/' !in name
    ensures SplitAuthor(name + SpacedSlash + source) == Some(AuthorFields(name, source))
  {
    var author := name + SpacedSlash + source;
    assert OccursAt(author, SpacedSlash, |name|) by {
      assert author[|name|..|name| + 3] == SpacedSlash;
    }
    forall j | 0 <= j < |name| ensures !OccursAt(author, SpacedSlash, j) {
      SlashInTheMiddle(author, j);
      if j + 1 < |name| {
        assert author[j + 1] == name[j + 1];
        assert name[j + 1] in name;
      } else {
        assert author[j + 1] == ' ';
      }
    }
    var i := Find(author, SpacedSlash).value;
    assert i == |name|;
    assert author[..i] == name;
    assert author[i + 3..] == source;
    CleanStripsToItself(name);
    CleanStripsToItself(source);
  }

  /**
   * Round trip of the bare "/" form, for an author that does not also
   * contain " / ".
   */
  lemma BareSlashRoundTrip(name: string, source: string)
    requires Clean(name) && Clean(source)
    requires '/' !in name
    requires !Contains(name + "/" + source, SpacedSlash)
    ensures SplitAuthor(name + "/" + source) == Some(AuthorFields(name, source))
  {
    var author := name + "/" + source;
    assert author[|name|] == '/';
    IndexOfCharAfterFree(name, '/', source);
    assert author[..|name|] == name;
    assert author[|name| + 1..] == source;
    CleanStripsToItself(name);
    CleanStripsToItself(source);
  }

  lemma CleanStripsToItself(s: string)
    requires Clean(s)
    ensures PyStrip(s) == s
  {
    TrimStartOfClean(s, IsPythonSpace);
    TrimEndOfClean(s, IsPythonSpace);
  }
}
