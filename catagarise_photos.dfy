/**
 * The tag-line resolver and tag registry of CatagarisePhotos.py.
 *
 * For each photo the user types a line of whitespace-separated tokens. A
 * token that `int()` accepts is a serial number into the registry of tags
 * entered so far (Python list indexing, so negative numbers count from the
 * end); an out-of-range number is reported and dropped. Any other token is
 * a tag: it goes to the photo's tag list, and to the registry unless it is
 * already there. The output line is the photo's name followed by its tags.
 */
module CatagarisePhotos {
  import opened Wrappers
  import opened PyText

  /** `xs[k]` with Python list indexing; `None` where Python raises `IndexError`. */
  function PyIndex<T>(xs: seq<T>, k: int): (r: Option<T>)
    ensures r.Some? <==> -|xs| <= k < |xs|
    ensures r.Some? ==> r.value in xs
    ensures 0 <= k < |xs| ==> r == Some(xs[k])
  {
    if 0 <= k < |xs| then Some(xs[k])
    else if -|xs| <= k < 0 then Some(xs[|xs| + k])
    else None
  }

  /** A negative index names the same entry as that index plus the length. */
  lemma NegativeIndexCountsFromEnd<T>(xs: seq<T>, k: int)
    requires 0 <= k < |xs|
    ensures PyIndex(xs, k - |xs|) == PyIndex(xs, k) == Some(xs[k])
  {
  }

  /** The tags resolved so far for the current photo, and the registry. */
  datatype Resolution = Resolution(tags: seq<string>, registry: seq<string>)

  predicate NoDuplicates(s: seq<string>) {
    forall i, j :: 0 <= i < j < |s| ==> s[i] != s[j]
  }

  /** What the registry holds: words that `int()` rejects. */
  predicate IsTag(t: string) {
    IsWord(t) && !IsNumber(t)
  }

  predicate AllTags(s: seq<string>) {
    forall t <- s :: IsTag(t)
  }

  /** The effect of one token on the photo's tag list and on the registry. */
  function ResolveToken(r: Resolution, token: string): (r': Resolution)
    ensures r.registry <= r'.registry && r.tags <= r'.tags
    ensures |r'.registry| <= |r.registry| + 1 && |r'.tags| <= |r.tags| + 1
  {
    if IsNumber(token) then
      match PyIndex(r.registry, ParseInt(token))
      case Some(tag) => Resolution(r.tags + [tag], r.registry)
      case None => r
    else
      Resolution(r.tags + [token], if token in r.registry then r.registry else r.registry + [token])
  }

  /**
   * A numeric token leaves the registry alone and adds the entry it
   * indexes, or nothing when out of range; any other token is added to the
   * tags, and to the registry only when absent.
   */
  lemma ResolveTokenEffect(r: Resolution, token: string)
    ensures IsNumber(token) ==> ResolveToken(r, token).registry == r.registry
    ensures IsNumber(token) && PyIndex(r.registry, ParseInt(token)).None? ==> ResolveToken(r, token) == r
    ensures IsNumber(token) && PyIndex(r.registry, ParseInt(token)).Some? ==>
      ResolveToken(r, token).tags == r.tags + [PyIndex(r.registry, ParseInt(token)).value]
    ensures !IsNumber(token) ==> ResolveToken(r, token).tags == r.tags + [token]
    ensures !IsNumber(token) ==>
      ResolveToken(r, token).registry == if token in r.registry then r.registry else r.registry + [token]
  {
  }

  /** The effect of a line of tokens, taken left to right. */
  function ResolveAll(r: Resolution, tokens: seq<string>): (r': Resolution)
    ensures |r'.tags| <= |r.tags| + |tokens| && |r'.registry| <= |r.registry| + |tokens|
    decreases |tokens|
  {
    if tokens == [] then r
    else ResolveToken(ResolveAll(r, tokens[..|tokens| - 1]), tokens[|tokens| - 1])
  }

  lemma ResolveAllPrefix(r: Resolution, tokens: seq<string>, i: nat)
    requires i < |tokens|
    ensures ResolveAll(r, tokens[..i + 1]) == ResolveToken(ResolveAll(r, tokens[..i]), tokens[i])
  {
    assert tokens[..i + 1][..i] == tokens[..i];
  }

  /** The registry only grows at its end, and so does the photo's tag list. */
  lemma {:induction false} RegistryIsAppendOnly(r: Resolution, tokens: seq<string>)
    ensures r.registry <= ResolveAll(r, tokens).registry
    ensures r.tags <= ResolveAll(r, tokens).tags
    decreases |tokens|
  {
    if tokens != [] {
      RegistryIsAppendOnly(r, tokens[..|tokens| - 1]);
    }
  }

  /** A registry without duplicates stays without duplicates. */
  lemma {:induction false} RegistryStaysDuplicateFree(r: Resolution, tokens: seq<string>)
    requires NoDuplicates(r.registry)
    ensures NoDuplicates(ResolveAll(r, tokens).registry)
    decreases |tokens|
  {
    if tokens != [] {
      RegistryStaysDuplicateFree(r, tokens[..|tokens| - 1]);
    }
  }

  /** The registry afterwards holds what it held, plus exactly the line's non-numeric tokens. */
  lemma {:induction false} RegistryContents(r: Resolution, tokens: seq<string>, t: string)
    ensures t in ResolveAll(r, tokens).registry <==> t in r.registry || (t in tokens && !IsNumber(t))
    decreases |tokens|
  {
    if tokens != [] {
      var front := tokens[..|tokens| - 1];
      RegistryContents(r, front, t);
      assert t in tokens <==> t in front || t == tokens[|tokens| - 1] by {
        assert tokens == front + [tokens[|tokens| - 1]];
      }
    }
  }

  /**
   * When the registry and the tags so far are non-numeric words and the
   * tokens are words, so are the registry and the tags afterwards: a
   * numeric token never enters the registry and never reaches the output
   * as typed.
   */
  lemma {:induction false} ResolvedTagsAreTags(r: Resolution, tokens: seq<string>)
    requires AllTags(r.registry) && AllTags(r.tags) && forall t <- tokens :: IsWord(t)
    ensures AllTags(ResolveAll(r, tokens).registry) && AllTags(ResolveAll(r, tokens).tags)
    decreases |tokens|
  {
    if tokens != [] {
      var front := tokens[..|tokens| - 1];
      assert forall t <- front :: t in tokens;
      ResolvedTagsAreTags(r, front);
      assert IsWord(tokens[|tokens| - 1]);
    }
  }

  /** Every tag given to the photo is (by then) in the registry. */
  lemma {:induction false} ResolvedTagsAreRegistered(r: Resolution, tokens: seq<string>)
    requires forall t <- r.tags :: t in r.registry
    ensures forall t <- ResolveAll(r, tokens).tags :: t in ResolveAll(r, tokens).registry
    decreases |tokens|
  {
    if tokens != [] {
      var front := tokens[..|tokens| - 1];
      ResolvedTagsAreRegistered(r, front);
      var before := ResolveAll(r, front);
      RegistryIsAppendOnly(before, [tokens[|tokens| - 1]]);
      assert [tokens[|tokens| - 1]][..0] == [];
    }
  }

  /** A line without numeric tokens is echoed as typed, repeats included. */
  lemma {:induction false} TagsWithoutNumbersAreEchoed(r: Resolution, tokens: seq<string>)
    requires forall t <- tokens :: !IsNumber(t)
    ensures ResolveAll(r, tokens).tags == r.tags + tokens
    decreases |tokens|
  {
    if tokens != [] {
      var front := tokens[..|tokens| - 1];
      assert forall t <- front :: t in tokens;
      TagsWithoutNumbersAreEchoed(r, front);
      assert tokens == front + [tokens[|tokens| - 1]];
    }
  }

  /**
   * A tag typed for the first time can be referred to by number later in
   * the same line: its new serial number, and -1, both resolve to it.
   */
  lemma NewTagUsableInSameLine(registry: seq<string>, tag: string)
    requires IsTag(tag) && tag !in registry
    ensures ResolveAll(Resolution([], registry), [tag, IntToString(|registry|)]).tags == [tag, tag]
    ensures ResolveAll(Resolution([], registry), [tag, "-1"]).tags == [tag, tag]
  {
    var r0 := Resolution([], registry);
    var r1 := Resolution([tag], registry + [tag]);
    assert ResolveToken(r0, tag) == r1;
    ResolveTwo(r0, tag, IntToString(|registry|));
    ResolveTwo(r0, tag, "-1");
    NewestTagByNumber(r1);
  }

  /** Both the last serial number and `-1` resolve to the newest registered tag. */
  lemma NewestTagByNumber(r: Resolution)
    requires r.registry != []
    ensures var newest := r.registry[|r.registry| - 1];
      ResolveToken(r, IntToString(|r.registry| - 1)).tags == r.tags + [newest] &&
      ResolveToken(r, "-1").tags == r.tags + [newest]
  {
    IntToStringRoundTrip(|r.registry| - 1);
    assert "-1"[1..] == "1";
    assert IsNumber("-1") && ParseInt("-1") == -1;
  }

  /** A line of two tokens resolves the first, then the second. */
  lemma ResolveTwo(r: Resolution, first: string, second: string)
    ensures ResolveAll(r, [first, second]) == ResolveToken(ResolveToken(r, first), second)
  {
    assert [first, second][..1] == [first] && [first][..0] == [];
    assert ResolveAll(r, [first]) == ResolveToken(ResolveAll(r, []), first);
  }

  /** One menu entry: the serial number, a colon, the tag and a separator. */
  function MenuEntry(i: nat, tag: string): string {
    IntToString(i) + ":" + tag + "  | "
  }

  /** A menu entry reads back as the serial number, a colon, the tag and the separator. */
  lemma MenuEntryReadsBack(i: nat, tag: string)
    ensures var e := MenuEntry(i, tag);
      var n := |IntToString(i)|;
      |e| == n + |tag| + 5 && e[..n] == IntToString(i) && e[n] == ':' &&
      e[n + 1..n + 1 + |tag|] == tag && e[n + 1 + |tag|..] == "  | "
  {
    var e := MenuEntry(i, tag);
    assert e[|IntToString(i)| + 1 + |tag|..] == "  | ";
  }

  /** The menu printed before each photo: one entry per registered tag, in order. */
  function MenuText(registry: seq<string>): (m: string)
    ensures m == [] <==> registry == []
    decreases |registry|
  {
    if registry == [] then ""
    else MenuText(registry[..|registry| - 1]) + MenuEntry(|registry| - 1, registry[|registry| - 1])
  }

  /** The menu lists entry `i` right after entries 0 to i - 1. */
  lemma {:induction false} MenuListsEntriesInOrder(registry: seq<string>, i: nat)
    requires i < |registry|
    ensures MenuText(registry[..i]) + MenuEntry(i, registry[i]) <= MenuText(registry)
    decreases |registry|
  {
    var n := |registry| - 1;
    var front := registry[..n];
    assert registry == front + [registry[n]];
    var prev := MenuText(front);
    var last := MenuEntry(n, registry[n]);
    assert MenuText(registry) == prev + last;
    if i < n {
      MenuListsEntriesInOrder(front, i);
      assert front[..i] == registry[..i] && front[i] == registry[i];
      PrefixOfConcat(MenuText(registry[..i]) + MenuEntry(i, registry[i]), prev, last);
    }
  }

  lemma PrefixOfConcat(a: string, b: string, c: string)
    requires a <= b
    ensures a <= b + c
  {
    assert (b + c)[..|a|] == b[..|a|];
  }

  /** The number a menu entry is labelled with is read back as that entry's tag. */
  lemma MenuLabelResolvesToItsTag(r: Resolution, i: nat)
    requires i < |r.registry|
    ensures MenuEntry(i, r.registry[i])[..|IntToString(i)|] == IntToString(i)
    ensures IsNumber(IntToString(i))
    ensures ResolveToken(r, IntToString(i)) == Resolution(r.tags + [r.registry[i]], r.registry)
  {
    IntToStringRoundTrip(i);
  }

  /** The line appended to the output file: the photo's name, then its tags, single-spaced. */
  function OutputLine(img: string, tags: seq<string>): (line: string)
    ensures img <= line
  {
    Join([img] + tags)
  }

  /** For a photo name without whitespace, the output line splits back into the name and the tags. */
  lemma OutputLineSplitsBack(img: string, tags: seq<string>)
    requires IsWord(img) && forall t <- tags :: IsWord(t)
    ensures Split(OutputLine(img, tags)) == [img] + tags
  {
    SplitJoin([img] + tags);
  }

  /** The registry of tags entered so far, kept across photos. */
  class TagRegistry {
    var hashTags: seq<string>

    ghost predicate Valid()
      reads this
    {
      NoDuplicates(hashTags) && AllTags(hashTags)
    }

    constructor ()
      ensures Valid() && hashTags == []
    {
      hashTags := [];
    }

    /** Builds the menu of registered tags. */
    method Menu() returns (menu: string)
      ensures menu == MenuText(hashTags)
    {
      menu := "";
      var i := 0;
      while i < |hashTags|
        invariant 0 <= i <= |hashTags|
        invariant menu == MenuText(hashTags[..i])
      {
        assert hashTags[..i + 1][..i] == hashTags[..i];
        menu := menu + MenuEntry(i, hashTags[i]);
        i := i + 1;
      }
      assert hashTags[..i] == hashTags;
    }

    /** Resolves the tokens of `userInput` into the photo's tags, registering new tags. */
    method ResolveInput(userInput: string) returns (currentTags: seq<string>)
      requires Valid()
      modifies this
      ensures Valid()
      ensures Resolution(currentTags, hashTags) == ResolveAll(Resolution([], old(hashTags)), Split(userInput))
    {
      var tokens := Split(userInput);
      currentTags := [];
      var i := 0;
      while i < |tokens|
        invariant 0 <= i <= |tokens|
        invariant Resolution(currentTags, hashTags) == ResolveAll(Resolution([], old(hashTags)), tokens[..i])
      {
        var tag := tokens[i];
        ghost var before := Resolution(currentTags, hashTags);
        if IsNumber(tag) {
          var entry := PyIndex(hashTags, ParseInt(tag));
          if entry.Some? {
            currentTags := currentTags + [entry.value];
          }
        } else {
          currentTags := currentTags + [tag];
          if tag !in hashTags {
            hashTags := hashTags + [tag];
          }
        }
        assert Resolution(currentTags, hashTags) == ResolveToken(before, tag);
        ResolveAllPrefix(Resolution([], old(hashTags)), tokens, i);
        i := i + 1;
      }
      assert tokens[..i] == tokens;
      assert Valid() by {
        RegistryStaysDuplicateFree(Resolution([], old(hashTags)), tokens);
        ResolvedTagsAreTags(Resolution([], old(hashTags)), tokens);
      }
    }

    /**
     * One photo: the menu shown before input, and the output line built
     * from the photo's list line and the user's input line.
     */
    method CategoriseImage(imgLine: string, userInput: string) returns (menu: string, outputLine: string)
      requires Valid()
      modifies this
      ensures Valid()
      ensures menu == MenuText(old(hashTags))
      ensures hashTags == ResolveAll(Resolution([], old(hashTags)), Split(userInput)).registry
      ensures outputLine == OutputLine(RStrip(imgLine), ResolveAll(Resolution([], old(hashTags)), Split(userInput)).tags)
    {
      var img := RStrip(imgLine);
      menu := Menu();
      var currentTags := ResolveInput(userInput);
      outputLine := Join([img] + currentTags);
    }
  }
}
