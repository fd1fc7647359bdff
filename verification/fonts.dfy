// The font helpers: the cache of created PDF fonts keyed by family and
// style (pdf package), and the two tables of TrueType files found on the
// system, with the name matching each package uses to pick a file.
module Fonts {
  import opened Common

  // ---------------------------------------------------------------------
  // FontCache (pdf package)

  /** `FontCache.CacheItem`: a family name, as stored already lower-cased, and the two style flags. */
  datatype CacheItem = CacheItem(family: string, isBold: bool, isItalic: bool)

  /** The item the `CacheItem` constructor builds: the family is lower-cased. */
  function Key(family: string, isBold: bool, isItalic: bool): CacheItem {
    CacheItem(Lower(family), isBold, isItalic)
  }

  /** `CacheItem.equals`: same family, same boldness, same slant. */
  predicate ItemEquals(a: CacheItem, b: CacheItem) {
    a.family == b.family && a.isBold == b.isBold && a.isItalic == b.isItalic
  }

  /** `String.hashCode`: the polynomial hash in base 31, kept to 32 bits. */
  function StringHash(s: string): (h: int)
    ensures -0x8000_0000 <= h < 0x8000_0000
  {
    if s == [] then 0 else Wrap32(31 * StringHash(s[..|s| - 1]) + s[|s| - 1] as int)
  }

  /** `CacheItem.hashCode`: prime 31, with 1231/1237 for the two flags, in 32-bit arithmetic. */
  function HashCode(k: CacheItem): (h: int)
    ensures -0x8000_0000 <= h < 0x8000_0000
  {
    var r := Wrap32(31 * 1 + StringHash(k.family));
    var r' := Wrap32(31 * r + (if k.isBold then 1231 else 1237));
    Wrap32(31 * r' + (if k.isItalic then 1231 else 1237))
  }

  /** `equals` is exactly structural equality, so equal items hash alike. */
  lemma EqualItemsHashAlike(a: CacheItem, b: CacheItem)
    ensures ItemEquals(a, b) <==> a == b
    ensures ItemEquals(a, b) ==> HashCode(a) == HashCode(b)
  {
  }

  /** Two lookups hit the same entry exactly when the families agree up to case and the flags agree. */
  lemma SameKey(f1: string, b1: bool, i1: bool, f2: string, b2: bool, i2: bool)
    ensures ItemEquals(Key(f1, b1, i1), Key(f2, b2, i2)) <==> Lower(f1) == Lower(f2) && b1 == b2 && i1 == i2
  {
  }

  /** `FontCache`: the fonts created so far, by family (ignoring case) and style. */
  class FontCache<F> {
    var cache: map<CacheItem, F>

    constructor ()
      ensures forall f, b, i :: Get(f, b, i) == None
    {
      cache := map[];
    }

    /** `get`: the font stored under the family and style, or nothing (`null`). */
    function Get(family: string, isBold: bool, isItalic: bool): (r: Option<F>)
      reads this
    {
      var k := Key(family, isBold, isItalic);
      if k in cache then Some(cache[k]) else None
    }

    /** `get` ignores the case of the family name. */
    lemma GetIgnoresCase(f1: string, f2: string, isBold: bool, isItalic: bool)
      requires Lower(f1) == Lower(f2)
      ensures Get(f1, isBold, isItalic) == Get(f2, isBold, isItalic)
    {
    }

    /** `store`: the font is found under its family and style from now on; every other key keeps its font. */
    method Store(family: string, isBold: bool, isItalic: bool, font: F)
      modifies this
      ensures cache == old(cache)[Key(family, isBold, isItalic) := font]
      ensures forall f :: Lower(f) == Lower(family) ==> Get(f, isBold, isItalic) == Some(font)
      ensures forall f, b, i :: !ItemEquals(Key(f, b, i), Key(family, isBold, isItalic)) ==>
                Get(f, b, i) == old(Get(f, b, i))
    {
      cache := cache[Key(family, isBold, isItalic) := font];
    }
  }

  // ---------------------------------------------------------------------
  // Strings as the font tables see them

  /** A font file as `FontFileFinder` reports it; only its path matters here. */
  datatype Uri = Uri(path: string)

  /** The number of characters up to U+0020 at the front of `s`. */
  function Lead(s: string): (n: nat)
    ensures n <= |s| && (n < |s| ==> s[n] > ' ')
    ensures forall i :: 0 <= i < n ==> s[i] <= ' '
  {
    if s == [] || s[0] > ' ' then 0 else 1 + Lead(s[1..])
  }

  /** The number of characters up to U+0020 at the end of `s`. */
  function Trail(s: string): (n: nat)
    ensures n <= |s| && (n < |s| ==> s[|s| - 1 - n] > ' ')
    ensures forall i :: |s| - n <= i < |s| ==> s[i] <= ' '
  {
    if s == [] || s[|s| - 1] > ' ' then 0 else 1 + Trail(s[..|s| - 1])
  }

  /** `String.trim`: drops every character up to U+0020 at both ends. */
  function Trim(s: string): string {
    var m := s[Lead(s)..];
    m[..|m| - Trail(m)]
  }

  /** `replaceAll("[^a-z]", "")`: the letters `a` to `z`, in order. */
  function KeepLetters(s: string): (r: string)
    ensures forall i :: 0 <= i < |r| ==> 'a' <= r[i] <= 'z'
    ensures |r| <= |s|
  {
    if s == [] then []
    else (if 'a' <= s[0] <= 'z' then [s[0]] else []) + KeepLetters(s[1..])
  }

  /** Only letters `a` to `z`. */
  predicate AllLetters(s: string) {
    forall i :: 0 <= i < |s| ==> 'a' <= s[i] <= 'z'
  }

  lemma {:induction false} KeepLettersOfLetters(s: string)
    requires AllLetters(s)
    ensures KeepLetters(s) == s
  {
    if s != [] {
      KeepLettersOfLetters(s[1..]);
    }
  }

  lemma {:induction false} KeepLettersConcat(a: string, b: string)
    ensures KeepLetters(a + b) == KeepLetters(a) + KeepLetters(b)
  {
    if a == [] {
      assert a + b == b;
    } else {
      assert (a + b)[0] == a[0] && (a + b)[1..] == a[1..] + b;
      KeepLettersConcat(a[1..], b);
    }
  }

  /** `String.lastIndexOf(char)`: the last position of `c`, or -1. */
  function LastIndexOf(s: string, c: char): (r: int)
    ensures -1 <= r < |s|
    ensures r >= 0 ==> s[r] == c
    ensures forall j :: r < j < |s| ==> s[j] != c
  {
    if s == [] then -1
    else if s[|s| - 1] == c then |s| - 1
    else LastIndexOf(s[..|s| - 1], c)
  }

  /** A path whose lower-cased form ends in `.ttf` has no `/` in its last four characters. */
  lemma TtfTail(path: string)
    requires EndsWith(Lower(path), ".ttf")
    ensures forall j :: |path| - 4 <= j < |path| ==> path[j] != '/'
  {
    var tail := Lower(path)[|path| - 4..];
    assert tail == ".ttf";
    assert forall k :: 0 <= k < 4 ==> tail[k] != '/';
    forall j | |path| - 4 <= j < |path| ensures path[j] != '/' {
      assert tail[j - (|path| - 4)] == LowerChar(path[j]);
    }
  }

  /** The file name between the last `/` and the four-character extension. */
  function BaseName(path: string): (r: string)
    requires EndsWith(Lower(path), ".ttf")
    ensures |r| <= |path| - 4
    ensures forall j :: 0 <= j < |r| ==> r[j] != '/'
    ensures r == path[|path| - 4 - |r|..|path| - 4]
  {
    TtfTail(path);
    path[LastIndexOf(path, '/') + 1..|path| - 4]
  }

  // ---------------------------------------------------------------------
  // FontDB (pdf package)

  /** `normalizeName`: trimmed, lower-cased, and reduced to the letters `a` to `z`. */
  function NormalizeName(name: string): (r: string)
    ensures AllLetters(r)
  {
    KeepLetters(Lower(Trim(name)))
  }

  lemma LowerConcat(a: string, b: string)
    ensures Lower(a + b) == Lower(a) + Lower(b)
  {
    assert forall i :: 0 <= i < |a + b| ==> Lower(a + b)[i] == (Lower(a) + Lower(b))[i];
  }

  /** Characters up to U+0020 hold no letter, before or after lower-casing. */
  lemma {:induction false} NoLettersInBlanks(s: string)
    requires forall i :: 0 <= i < |s| ==> s[i] <= ' '
    ensures KeepLetters(Lower(s)) == []
  {
    if s != [] {
      assert Lower(s)[1..] == Lower(s[1..]);
      NoLettersInBlanks(s[1..]);
    }
  }

  /** Blank characters around a string add no letters to it. */
  lemma BlanksAround(front: string, m: string, back: string)
    requires forall i :: 0 <= i < |front| ==> front[i] <= ' '
    requires forall i :: 0 <= i < |back| ==> back[i] <= ' '
    ensures KeepLetters(Lower(front + m + back)) == KeepLetters(Lower(m))
  {
    NoLettersInBlanks(front);
    NoLettersInBlanks(back);
    LowerConcat(front + m, back);
    LowerConcat(front, m);
    KeepLettersConcat(Lower(front + m), Lower(back));
    KeepLettersConcat(Lower(front), Lower(m));
  }

  /** Trimming never changes the normalised name: the characters it drops are no letters. */
  lemma NormalizeIgnoresTrim(s: string)
    ensures NormalizeName(s) == KeepLetters(Lower(s))
  {
    var front, back := TrimParts(s);
    BlanksAround(front, Trim(s), back);
  }

  /** `s` is its trimmed form with blank characters before and after it. */
  lemma TrimParts(s: string) returns (front: string, back: string)
    ensures s == front + Trim(s) + back
    ensures forall i :: 0 <= i < |front| ==> front[i] <= ' '
    ensures forall i :: 0 <= i < |back| ==> back[i] <= ' '
  {
    front := BlankFront(s);
    back := BlankBack(s[Lead(s)..]);
    Recompose(s, Lead(s), |s[Lead(s)..]| - Trail(s[Lead(s)..]));
  }

  /** The characters `Lead` counts form a blank prefix. */
  lemma BlankFront(s: string) returns (front: string)
    ensures front == s[..Lead(s)]
    ensures forall i :: 0 <= i < |front| ==> front[i] <= ' '
  {
    front := s[..Lead(s)];
  }

  /** The characters `Trail` counts form a blank suffix. */
  lemma BlankBack(m: string) returns (back: string)
    ensures back == m[|m| - Trail(m)..]
    ensures forall i :: 0 <= i < |back| ==> back[i] <= ' '
  {
    var t := Trail(m);
    back := m[|m| - t..];
    forall i | 0 <= i < |back| ensures back[i] <= ' ' {
      assert back[i] == m[|m| - t + i];
    }
  }

  /** A sequence is its prefix, then a middle part, then the rest. */
  lemma Recompose<T>(s: seq<T>, lead: nat, cut: nat)
    requires lead <= |s| && cut <= |s| - lead
    ensures s == s[..lead] + s[lead..][..cut] + s[lead..][cut..]
  {
    assert s == s[..lead] + s[lead..];
    assert s[lead..] == s[lead..][..cut] + s[lead..][cut..];
  }

  /** Lower-casing leaves the letters `a` to `z` alone. */
  lemma LowerOfLetters(s: string)
    requires AllLetters(s)
    ensures Lower(s) == s
  {
  }

  /** `normalizeName` is idempotent. */
  lemma NormalizeIdempotent(name: string)
    ensures NormalizeName(NormalizeName(name)) == NormalizeName(name)
  {
    var n := NormalizeName(name);
    NormalizeIgnoresTrim(n);
    LowerOfLetters(n);
    KeepLettersOfLetters(n);
  }

  /**
   * Normalising a concatenation normalises the parts: the key of a file
   * named after a family and a style suffix is the normalised family
   * followed by the normalised suffix, which is what `findFontURI` looks up.
   */
  lemma NormalizeConcat(a: string, b: string)
    ensures NormalizeName(a + b) == NormalizeName(a) + NormalizeName(b)
  {
    NormalizeIgnoresTrim(a + b);
    NormalizeIgnoresTrim(a);
    NormalizeIgnoresTrim(b);
    LowerConcat(a, b);
    KeepLettersConcat(Lower(a), Lower(b));
  }

  /** The style suffixes `findFontURI` tries, in order, for each combination of the two flags. */
  function Suffixes(bold: bool, italic: bool): seq<string> {
    if bold && italic then ["bolditalic", "italicbold", "bi", "bd", "boldoblique", "obliquebold"]
    else if bold then ["bold", "bd", "b"]
    else if italic then ["italic", "i", "oblique"]
    else ["", "r"]
  }

  /**
   * The key `buildFontTable` files a font under: none unless the trimmed
   * path ends in `.ttf` ignoring case; otherwise the normalised file name
   * without its directory and its extension.
   */
  function PdfKey(u: Uri): (r: Option<string>)
    ensures r.Some? ==> AllLetters(r.value)
    ensures r.Some? <==> EndsWith(Lower(Trim(u.path)), ".ttf")
  {
    var path := Trim(u.path);
    if EndsWith(Lower(path), ".ttf") then Some(NormalizeName(BaseName(path))) else None
  }

  /** The table a scan reporting the files `found`, in this order, builds with the key function `key`. */
  function TableFrom(found: seq<Uri>, key: Uri -> Option<string>): map<string, Uri> {
    if found == [] then map[]
    else
      var t := TableFrom(found[..|found| - 1], key);
      var u := found[|found| - 1];
      match key(u)
      case None => t
      case Some(k) => t[k := u]
  }

  /** A key is in the table exactly when some scanned file has it. */
  lemma {:induction false} TableFromKeys(found: seq<Uri>, key: Uri -> Option<string>, k: string)
    ensures k in TableFrom(found, key) <==> exists i :: 0 <= i < |found| && key(found[i]) == Some(k)
  {
    if found != [] {
      var n := |found| - 1;
      TableFromKeys(found[..n], key, k);
      assert forall i :: 0 <= i < n ==> found[..n][i] == found[i];
      if k in TableFrom(found, key) && key(found[n]) != Some(k) {
        var i :| 0 <= i < n && key(found[..n][i]) == Some(k);
      }
    }
  }

  /** A key maps to the LAST scanned file that has it: a later file with the same key replaces an earlier one. */
  lemma {:induction false} TableFromLast(found: seq<Uri>, key: Uri -> Option<string>, k: string, i: nat)
    requires i < |found| && key(found[i]) == Some(k)
    requires forall j :: i < j < |found| ==> key(found[j]) != Some(k)
    ensures k in TableFrom(found, key) && TableFrom(found, key)[k] == found[i]
  {
    var n := |found| - 1;
    if i < n {
      TableFromLast(found[..n], key, k, i);
    }
  }

  /** `FontDB` of the pdf package: normalised font names to font files. */
  class PdfFontDB {
    var fontTable: map<string, Uri>

    /** `buildFontTable`, over the files the font scan reports, in the order reported. */
    constructor (found: seq<Uri>)
      ensures fontTable == TableFrom(found, PdfKey)
    {
      var table, order := ScanFonts(found, PdfKey);
      fontTable := table;
    }

    /**
     * `findFontURI`: the file stored under the normalised family followed
     * by the first suffix, in list order, for which there is one; nothing
     * when there is none.
     */
    method FindFontURI(family: string, bold: bool, italic: bool) returns (r: Option<Uri>)
      ensures FirstHit(fontTable, NormalizeName(family), Suffixes(bold, italic), r)
    {
      var search := Suffixes(bold, italic);
      var prefix := NormalizeName(family);
      r := FindFirst(fontTable, prefix, search);
    }
  }

  /**
   * `r` is the entry of `table` under `prefix` followed by the first of
   * `search`, in order, for which there is one; nothing when there is none.
   */
  predicate FirstHit(table: map<string, Uri>, prefix: string, search: seq<string>, r: Option<Uri>) {
    (r.None? <==> forall j :: 0 <= j < |search| ==> prefix + search[j] !in table)
    && (r.Some? ==> exists j :: 0 <= j < |search| && prefix + search[j] in table && r.value == table[prefix + search[j]]
                                && forall m :: 0 <= m < j ==> prefix + search[m] !in table)
  }

  /** The loop of `findFontURI` over the candidate suffixes, with its early return. */
  method FindFirst(table: map<string, Uri>, prefix: string, search: seq<string>) returns (r: Option<Uri>)
    ensures FirstHit(table, prefix, search, r)
  {
    var i := 0;
    while i < |search|
      invariant i <= |search|
      invariant forall m :: 0 <= m < i ==> prefix + search[m] !in table
    {
      var cand := prefix + search[i];
      if cand in table {
        return Some(table[cand]);
      }
      i := i + 1;
    }
    return None;
  }

  // ---------------------------------------------------------------------
  // FontDB (render package)

  /** The key the render package's `buildFontTable` uses: the lower-cased file name, when the path ends in `.ttf`. */
  function RenderKey(u: Uri): (r: Option<string>)
    ensures r.Some? ==> Lower(r.value) == r.value
    ensures r.Some? <==> EndsWith(Lower(Trim(u.path)), ".ttf")
  {
    var path := Trim(u.path);
    if EndsWith(Lower(path), ".ttf") then
      LowerIdempotent(BaseName(path));
      Some(Lower(BaseName(path)))
    else None
  }

  /** `String.startsWith`. */
  predicate StartsWith(s: string, prefix: string) {
    prefix <= s
  }

  /** A font name `findFontName` keeps: of the family, and bold exactly when bold was asked for. */
  predicate Candidate(table: map<string, Uri>, family: string, bold: bool, n: string) {
    n in table && StartsWith(n, Lower(family)) && (Contains(n, "bold") <==> bold)
  }

  /** The names with `prefix`, in the order of `keys`. */
  function WithPrefix(keys: seq<string>, prefix: string): (r: seq<string>)
    ensures forall n :: n in r <==> n in keys && StartsWith(n, prefix)
    ensures NoDups(keys) ==> NoDups(r)
  {
    if keys == [] then []
    else
      var rest := WithPrefix(keys[..|keys| - 1], prefix);
      var n := keys[|keys| - 1];
      assert forall m :: m in keys[..|keys| - 1] ==> m in keys;
      assert NoDups(keys) ==> n !in keys[..|keys| - 1];
      if StartsWith(n, prefix) then rest + [n] else rest
  }

  /** `FontDB` of the render package: lower-cased font names to font files. */
  class RenderFontDB {
    var fontTable: map<string, Uri>
    /** The order in which the key set of `fontTable` is enumerated. */
    var keys: seq<string>

    ghost predicate Valid()
      reads this
    {
      NoDups(keys) && forall n :: n in keys <==> n in fontTable
    }

    /** `buildFontTable`, over the files the font scan reports, in the order reported. */
    constructor (found: seq<Uri>)
      ensures Valid() && fontTable == TableFrom(found, RenderKey)
      ensures forall n :: n in fontTable ==> Lower(n) == n
    {
      var table, order := ScanFonts(found, RenderKey);
      RenderKeysLower(found);
      fontTable, keys := table, order;
    }

    /** `findNamesByFamily`: the names in the table that start with the lower-cased family, in key order. */
    method FindNamesByFamily(family: string) returns (ret: seq<string>)
      requires Valid()
      ensures ret == WithPrefix(keys, Lower(family))
      ensures NoDups(ret) && forall n :: n in ret <==> n in fontTable && StartsWith(n, Lower(family))
    {
      var prefix := Lower(family);
      ret := [];
      var i := 0;
      while i < |keys|
        invariant i <= |keys|
        invariant ret == WithPrefix(keys[..i], prefix)
      {
        assert keys[..i + 1][..i] == keys[..i];
        if StartsWith(keys[i], prefix) {
          ret := ret + [keys[i]];
        }
        i := i + 1;
      }
      assert keys[..i] == keys;
    }

    /** The names `findFontName` chooses from: the family's names in key order, of the requested weight. */
    ghost function Candidates(family: string, bold: bool): seq<string>
      reads this
    {
      OfWeight(WithPrefix(keys, Lower(family)), bold)
    }

    /**
     * `findFontName`: among the names of the family, drops those whose
     * boldness does not match; then, for an italic request, the first name
     * containing "italic", else the first containing "oblique"; for an
     * upright request, the first containing neither; nothing otherwise.
     */
    method FindFontName(family: string, bold: bool, italic: bool) returns (r: Option<string>)
      requires Valid()
      ensures r.Some? ==> Candidate(fontTable, family, bold, r.value)
      ensures italic && (exists n :: Candidate(fontTable, family, bold, n) && Contains(n, "italic")) ==>
                r.Some? && Contains(r.value, "italic")
      ensures italic && r.Some? ==> Contains(r.value, "italic") || Contains(r.value, "oblique")
      ensures italic ==>
                (r.None? <==> forall n :: Candidate(fontTable, family, bold, n) ==>
                                            !Contains(n, "italic") && !Contains(n, "oblique"))
      ensures !italic && r.Some? ==> !Contains(r.value, "italic") && !Contains(r.value, "oblique")
      ensures !italic ==>
                (r.None? <==> forall n :: Candidate(fontTable, family, bold, n) ==>
                                            Contains(n, "italic") || Contains(n, "oblique"))
      ensures italic && (exists n :: n in Candidates(family, bold) && Contains(n, "italic")) ==>
                r.Some? && FirstContainingIn(Candidates(family, bold), "italic", r.value)
      ensures italic && (forall n :: n in Candidates(family, bold) ==> !Contains(n, "italic")) && r.Some? ==>
                FirstContainingIn(Candidates(family, bold), "oblique", r.value)
      ensures !italic && r.Some? ==> FirstUprightIn(Candidates(family, bold), r.value)
    {
      var list := FindNamesByFamily(family);
      list := DropOtherWeight(list, bold);
      assert forall n :: n in list <==> Candidate(fontTable, family, bold, n);
      if italic {
        r := FirstContaining(list, "italic");
        if r.None? {
          r := FirstContaining(list, "oblique");
        }
      } else {
        r := FirstUpright(list);
      }
    }

    /** `findFontURI`: the file of the name `findFontName` picks, or nothing when it picks none. */
    method FindFontURI(family: string, bold: bool, italic: bool) returns (r: Option<Uri>)
      requires Valid()
      ensures r.Some? ==> exists n :: Candidate(fontTable, family, bold, n) && r.value == fontTable[n]
                                      && (italic ==> Contains(n, "italic") || Contains(n, "oblique"))
                                      && (!italic ==> !Contains(n, "italic") && !Contains(n, "oblique"))
      ensures r.None? <==> forall n :: Candidate(fontTable, family, bold, n) ==>
                                         if italic then !Contains(n, "italic") && !Contains(n, "oblique")
                                         else Contains(n, "italic") || Contains(n, "oblique")
    {
      var name := FindFontName(family, bold, italic);
      if name.Some? {
        return Some(fontTable[name.value]);
      }
      return None;
    }
  }

  /**
   * The loop of `buildFontTable`, in both packages: each file with a key is
   * put into the table under that key; `keys` lists the keys in the order
   * they were first added.
   */
  method ScanFonts(found: seq<Uri>, key: Uri -> Option<string>) returns (table: map<string, Uri>, keys: seq<string>)
    ensures table == TableFrom(found, key)
    ensures NoDups(keys) && forall n :: n in keys <==> n in table
  {
    table, keys := map[], [];
    var i := 0;
    while i < |found|
      invariant i <= |found|
      invariant NoDups(keys) && forall n :: n in keys <==> n in table
      invariant table == TableFrom(found[..i], key)
    {
      assert found[..i + 1][..i] == found[..i];
      var k := key(found[i]);
      if k.Some? {
        if k.value !in table {
          NoDupsAppendOne(keys, k.value);
          keys := keys + [k.value];
        }
        table := table[k.value := found[i]];
      }
      i := i + 1;
    }
    assert found[..i] == found;
  }

  /** The render package stores its keys lower-cased. */
  lemma RenderKeysLower(found: seq<Uri>)
    ensures forall n :: n in TableFrom(found, RenderKey) ==> Lower(n) == n
  {
    forall n | n in TableFrom(found, RenderKey) ensures Lower(n) == n {
      TableFromKeys(found, RenderKey, n);
      var i :| 0 <= i < |found| && RenderKey(found[i]) == Some(n);
    }
  }

  lemma NoDupsAppendOne(s: seq<string>, x: string)
    requires NoDups(s) && x !in s
    ensures NoDups(s + [x])
  {
  }

  /** The names whose "bold" matches the request, in their original order. */
  function OfWeight(names: seq<string>, bold: bool): (r: seq<string>)
    ensures forall n :: n in r <==> n in names && (Contains(n, "bold") <==> bold)
  {
    if names == [] then []
    else
      var rest := OfWeight(names[..|names| - 1], bold);
      var n := names[|names| - 1];
      assert forall m :: m in names <==> m in names[..|names| - 1] || m == n by {
        assert names == names[..|names| - 1] + [n];
      }
      if Contains(n, "bold") <==> bold then rest + [n] else rest
  }

  /** The bold filter of `findFontName`, removing through the iterator, in place. */
  method DropOtherWeight(names: seq<string>, bold: bool) returns (list: seq<string>)
    ensures list == OfWeight(names, bold)
    ensures forall n :: n in list <==> n in names && (Contains(n, "bold") <==> bold)
  {
    list := names;
    var i := 0;
    ghost var k := 0;
    while i < |list|
      invariant k <= |names| && i == |OfWeight(names[..k], bold)|
      invariant list == OfWeight(names[..k], bold) + names[k..]
      decreases |list| - i
    {
      ghost var kept := OfWeight(names[..k], bold);
      SplitAfter(kept, names, k);
      OfWeightStep(names, k, bold);
      var cand := list[i];
      assert cand == names[k];
      if (bold && !Contains(cand, "bold")) || (!bold && Contains(cand, "bold")) {
        assert OfWeight(names[..k + 1], bold) == kept;
        list := list[..i] + list[i + 1..];
        assert list == kept + names[k + 1..];
      } else {
        assert OfWeight(names[..k + 1], bold) == kept + [cand];
        assert list == (kept + [cand]) + names[k + 1..];
        i := i + 1;
      }
      k := k + 1;
    }
    assert names[..k] == names;
  }

  /** One more name of `names` either joins the filtered prefix or is dropped. */
  lemma OfWeightStep(names: seq<string>, k: nat, bold: bool)
    requires k < |names|
    ensures OfWeight(names[..k + 1], bold) ==
              OfWeight(names[..k], bold) + (if Contains(names[k], "bold") <==> bold then [names[k]] else [])
  {
    assert names[..k + 1][..k] == names[..k];
  }

  /** A prefix followed by the rest of `s` from `k`: the element at the seam, and the seam removed. */
  lemma SplitAfter<T>(p: seq<T>, s: seq<T>, k: nat)
    requires k < |s|
    ensures (p + s[k..])[|p|] == s[k]
    ensures (p + s[k..])[..|p|] + (p + s[k..])[|p| + 1..] == p + s[k + 1..]
    ensures p + s[k..] == (p + [s[k]]) + s[k + 1..]
  {
    assert (p + s[k..])[..|p|] == p;
    assert (p + s[k..])[|p| + 1..] == s[k + 1..];
    assert s[k..] == [s[k]] + s[k + 1..];
  }

  /** `x` is the first name of `list` that contains `word`. */
  predicate FirstContainingIn(list: seq<string>, word: string, x: string) {
    exists i :: 0 <= i < |list| && list[i] == x && Contains(x, word)
                && forall j :: 0 <= j < i ==> !Contains(list[j], word)
  }

  /** `x` is the first name of `list` that contains neither "italic" nor "oblique". */
  predicate FirstUprightIn(list: seq<string>, x: string) {
    exists i :: 0 <= i < |list| && list[i] == x && !Contains(x, "italic") && !Contains(x, "oblique")
                && forall j :: 0 <= j < i ==> Contains(list[j], "italic") || Contains(list[j], "oblique")
  }

  /** The first name containing `word`, or nothing. */
  method FirstContaining(list: seq<string>, word: string) returns (r: Option<string>)
    ensures r.Some? ==> r.value in list && Contains(r.value, word)
    ensures r.Some? ==> FirstContainingIn(list, word, r.value)
    ensures r.None? <==> forall n :: n in list ==> !Contains(n, word)
  {
    var i := 0;
    while i < |list|
      invariant i <= |list|
      invariant forall j :: 0 <= j < i ==> !Contains(list[j], word)
    {
      if Contains(list[i], word) {
        return Some(list[i]);
      }
      i := i + 1;
    }
    return None;
  }

  /** The first name containing neither "italic" nor "oblique", or nothing. */
  method FirstUpright(list: seq<string>) returns (r: Option<string>)
    ensures r.Some? ==> r.value in list && !Contains(r.value, "italic") && !Contains(r.value, "oblique")
    ensures r.Some? ==> FirstUprightIn(list, r.value)
    ensures r.None? <==> forall n :: n in list ==> Contains(n, "italic") || Contains(n, "oblique")
  {
    var i := 0;
    while i < |list|
      invariant i <= |list|
      invariant forall j :: 0 <= j < i ==> Contains(list[j], "italic") || Contains(list[j], "oblique")
    {
      if !Contains(list[i], "italic") && !Contains(list[i], "oblique") {
        return Some(list[i]);
      }
      i := i + 1;
    }
    return None;
  }
}
