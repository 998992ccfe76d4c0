// The tab router of `Page` in app/page.tsx: the URL fragment selects one of a
// closed set of views, and choosing a view writes it back into the fragment.
module Router {

  /** The five top-level views (`type Tab` in the source). */
  datatype Tab = Home | Gallery | Packages | Notice | Faq

  /** The fragment spelling of each tab. */
  function Name(t: Tab): string {
    match t
    case Home => "home"
    case Gallery => "gallery"
    case Packages => "packages"
    case Notice => "notice"
    case Faq => "faq"
  }

  /** The list the source's `fromHash` searches with `includes`. */
  const TabNames: seq<string> := ["home", "gallery", "packages", "notice", "faq"]

  /**
   * `fromHash`: a fragment that is exactly (case-sensitively) one of the tab
   * names selects that tab; any other string selects `Home`.
   */
  function FromHash(h: string): (t: Tab)
    ensures (Name(t) == h) <==> (h in TabNames)
    ensures h !in TabNames ==> t == Home
  {
    if h == "gallery" then Gallery
    else if h == "packages" then Packages
    else if h == "notice" then Notice
    else if h == "faq" then Faq
    else Home
  }

  /** Position of the first '#' in `s`, or `|s|` when there is none. */
  function FirstHash(s: string): (i: nat)
    ensures i <= |s|
    ensures '#' !in s[..i]
    ensures i < |s| ==> s[i] == '#'
  {
    if s == [] || s[0] == '#' then 0
    else
      var j := FirstHash(s[1..]);
      assert s[..j + 1] == [s[0]] + s[1..][..j];
      j + 1
  }

  /**
   * `String.prototype.replace("#", "")` with a string pattern: only the FIRST
   * occurrence of '#' is removed, wherever it stands.
   */
  function RemoveFirstHash(s: string): (r: string)
    ensures FirstHash(s) == |s| ==> r == s
    ensures FirstHash(s) < |s| ==> r == s[..FirstHash(s)] + s[FirstHash(s) + 1..]
  {
    if s == [] then []
    else if s[0] == '#' then s[1..]
    else
      var j := FirstHash(s[1..]);
      assert s[..j + 1] == [s[0]] + s[1..][..j];
      assert j < |s| - 1 ==> s[j + 2..] == s[1..][j + 1..];
      [s[0]] + RemoveFirstHash(s[1..])
  }

  /** `window.location.hash.replace("#", "") || "home"`: the fragment text read from the address. */
  function FragmentText(hash: string): (h: string)
    ensures h != []
    ensures hash == [] ==> h == "home"
    ensures |hash| > 1 && hash[0] == '#' ==> h == hash[1..]
    ensures |hash| > 0 && '#' !in hash ==> h == hash
  {
    var stripped := RemoveFirstHash(hash);
    if stripped == [] then "home" else stripped
  }

  /** The tab selected by an address fragment, as on load and on `hashchange`. */
  function ReadTab(hash: string): Tab {
    FromHash(FragmentText(hash))
  }

  /** The fragment `onChange` writes for a tab (`#${t}`). */
  function WriteTab(t: Tab): string {
    "#" + Name(t)
  }

  /** Writing a tab into the fragment and reading it back gives the same tab. */
  lemma WriteThenRead(t: Tab)
    ensures ReadTab(WriteTab(t)) == t
  {
    var w := WriteTab(t);
    assert w[0] == '#' && w[1..] == Name(t);
  }

  /** The empty fragment and an unknown fragment both select `Home`; a known one selects its tab. */
  lemma ReadTabExamples()
    ensures ReadTab("") == Home
    ensures ReadTab("#nonsense") == Home
    ensures ReadTab("#gallery") == Gallery
  {
    assert "#nonsense"[0] == '#' && "#nonsense"[1..] == "nonsense";
    assert "#gallery"[0] == '#' && "#gallery"[1..] == "gallery";
  }

  /** Distinct tabs have distinct fragment names, so the fragment identifies the tab. */
  lemma NameInjective(t: Tab, u: Tab)
    ensures Name(t) == Name(u) ==> t == u
  {
  }

  /**
   * The page's tab state together with the address fragment it is kept in
   * sync with (`tab` in `Page`, and `window.location.hash`).
   */
  class TabRouter {
    var tab: Tab
    var hash: string

    /** The tab shown is the one the current fragment selects. */
    predicate InSync()
      reads this
    {
      ReadTab(hash) == tab
    }

    /** Mount: the fragment is read once and selects the initial tab. */
    constructor (initialHash: string)
      ensures hash == initialHash && tab == ReadTab(initialHash)
      ensures InSync()
    {
      hash := initialHash;
      tab := ReadTab(initialHash);
    }

    /** `hashchange` (back/forward, manual edit): the tab follows the new fragment. */
    method OnHashChange(newHash: string)
      modifies this
      ensures hash == newHash && tab == ReadTab(newHash)
      ensures InSync()
    {
      hash := newHash;
      tab := ReadTab(newHash);
    }

    /** `onChange`: show tab `t` and replace the fragment with `#t`. */
    method OnChange(t: Tab)
      modifies this
      ensures tab == t && hash == WriteTab(t)
      ensures InSync()
    {
      tab := t;
      hash := WriteTab(t);
      WriteThenRead(t);
    }
  }
}
