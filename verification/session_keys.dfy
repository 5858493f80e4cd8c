/** Deterministic session keys: sanitising, truncating, and the bounded <prefix>-<repo>-<number> form. */
module SessionKeys {
  import opened Model

  const MAX_KEY := 63

  /** A short hash of some text: eight lower-case hexadecimal digits. */
  type Hash8 = s: string | IsHash8(s) witness "00000000"

  predicate IsHash8(s: string) {
    |s| == 8 && forall i :: 0 <= i < 8 ==> ('0' <= s[i] <= '9' || 'a' <= s[i] <= 'f')
  }

  predicate IsAlnum(c: char) {
    'a' <= c <= 'z' || '0' <= c <= '9'
  }

  /**
   * unicode.ToLower as far as keys can tell: besides A-Z only the Kelvin sign
   * and the dotted capital I lower to an ASCII letter; every other rune stays
   * outside [a-z0-9] and folds into a dash anyway.
   */
  function Lower(c: char): char {
    if 'A' <= c <= 'Z' then c - 'A' + 'a'
    else if c == '\U{212A}' then 'k'
    else if c == '\U{0130}' then 'i'
    else c
  }

  // ----- the words of a key -----

  predicate InWord(s: string) {
    s != [] && IsAlnum(Lower(Last(s)))
  }

  /** The maximal runs of lowered letters and digits. */
  function Words(s: string): (ws: seq<string>)
    ensures InWord(s) ==> ws != []
    ensures forall i :: 0 <= i < |ws| ==> IsWord(ws[i])
  {
    if s == [] then []
    else
      var ws, c := Words(Front(s)), Lower(Last(s));
      if !IsAlnum(c) then ws
      else if InWord(Front(s)) then Front(ws) + [Last(ws) + [c]]
      else ws + [[c]]
  }

  predicate IsWord(w: string) {
    w != [] && forall i :: 0 <= i < |w| ==> IsAlnum(w[i])
  }

  function Join(ws: seq<string>): string {
    if ws == [] then "" else if |ws| == 1 then ws[0] else Join(Front(ws)) + "-" + Last(ws)
  }

  /** The sanitised form of s: its words, joined by single dashes. */
  function Sanitized(s: string): string {
    Join(Words(s))
  }

  // ----- the loop that computes it -----

  function TrimRight(s: string): (t: string)
    ensures t <= s
    ensures t == [] || Last(t) != '-'
    ensures forall i :: |t| <= i < |s| ==> s[i] == '-'
  {
    if s != [] && Last(s) == '-' then TrimRight(Front(s)) else s
  }

  function TrimLeft(s: string): string {
    if s != [] && s[0] == '-' then TrimLeft(s[1..]) else s
  }

  /** What the builder holds once t is read: its words, and a dash if another word may follow. */
  ghost predicate Built(b: string, lastDash: bool, t: string) {
    && lastDash == !InWord(t)
    && b == Join(Words(t)) + (if lastDash && Words(t) != [] then "-" else "")
  }

  lemma BuiltGrows(b: string, lastDash: bool, t: string, c: char)
    requires Built(b, lastDash, t)
    ensures IsAlnum(Lower(c)) ==> Built(b + [Lower(c)], false, t + [c])
    ensures !IsAlnum(Lower(c)) && lastDash ==> Built(b, true, t + [c])
    ensures !IsAlnum(Lower(c)) && !lastDash ==> Built(b + "-", true, t + [c])
  {
    WordsAppend(t, c);
    JoinGrows(Words(t), Lower(c));
    assert !lastDash ==> b == Join(Words(t));
  }

  /** Lowercase, fold every other run into one dash, trim. */
  method SanitizeKey(s: string) returns (key: string)
    ensures key == Sanitized(s)
  {
    var b, lastDash := "", true;
    for i := 0 to |s|
      invariant Built(b, lastDash, s[..i])
    {
      assert s[..i + 1] == s[..i] + [s[i]];
      BuiltGrows(b, lastDash, s[..i], s[i]);
      var r := Lower(s[i]);
      if IsAlnum(r) {
        b := b + [r];
        lastDash := false;
      } else if !lastDash {
        b := b + "-";
        lastDash := true;
      }
    }
    assert s[..|s|] == s;
    TrimmedJoin(Words(s), b);
    key := TrimLeft(TrimRight(b));
  }

  /** What one more character does to the words. */
  lemma WordsAppend(f: string, c: char)
    ensures InWord(f + [c]) == IsAlnum(Lower(c))
    ensures Words(f + [c]) ==
              if !IsAlnum(Lower(c)) then Words(f)
              else if InWord(f) then Front(Words(f)) + [Last(Words(f)) + [Lower(c)]]
              else Words(f) + [[Lower(c)]]
  {
    assert Front(f + [c]) == f && Last(f + [c]) == c;
  }

  lemma TrimmedJoin(ws: seq<string>, b: string)
    requires forall i :: 0 <= i < |ws| ==> IsWord(ws[i])
    requires b == Join(ws) || (ws != [] && b == Join(ws) + "-")
    ensures TrimLeft(TrimRight(b)) == Join(ws)
  {
    JoinShape(ws);
    if b != Join(ws) {
      assert Front(b) == Join(ws) && Last(b) == '-';
    }
  }

  predicate KeyChars(s: string) {
    forall i :: 0 <= i < |s| ==> IsAlnum(s[i]) || s[i] == '-'
  }

  /** A key in normal form: letters and digits in words separated by single dashes. */
  ghost predicate Normal(key: string) {
    && KeyChars(key)
    && (key != [] ==> key[0] != '-' && Last(key) != '-')
    && (forall i :: 0 <= i < |key| - 1 ==> !(key[i] == '-' && key[i + 1] == '-'))
  }

  lemma JoinGrows(ws: seq<string>, r: char)
    ensures Join(ws + [[r]]) == Join(ws) + (if ws == [] then "" else "-") + [r]
    ensures ws != [] ==> Join(Front(ws) + [Last(ws) + [r]]) == Join(ws) + [r]
  {
    assert Front(ws + [[r]]) == ws;
    if ws != [] {
      assert Front(Front(ws) + [Last(ws) + [r]]) == Front(ws);
      SplitLast(ws);
    }
  }

  lemma {:induction false} JoinShape(ws: seq<string>)
    requires forall i :: 0 <= i < |ws| ==> IsWord(ws[i])
    ensures Normal(Join(ws))
    ensures ws != [] ==> Join(ws) != []
  {
    if |ws| > 1 {
      JoinShape(Front(ws));
    }
  }

  // ----- sanitising as an algebra of words -----

  lemma WordsAppendAfter(ws: seq<string>, t: string, f: string, c: char)
    requires Words(t) == ws + Words(f) && InWord(t) == InWord(f)
    ensures Words(t + [c]) == ws + Words(f + [c])
  {
    WordsAppend(t, c);
    WordsAppend(f, c);
    if InWord(f) {
      GrowAfter(ws, Words(f), Lower(c));
    }
  }

  lemma GrowAfter(ws: seq<string>, vs: seq<string>, r: char)
    requires vs != []
    ensures Front(ws + vs) + [Last(ws + vs) + [r]] == ws + (Front(vs) + [Last(vs) + [r]])
  {
    assert Front(ws + vs) == ws + Front(vs);
  }

  /** A separator splits the words: none of them crosses it. */
  lemma {:induction false} WordsSplit(a: string, sep: char, b: string)
    requires !IsAlnum(Lower(sep))
    ensures Words(a + [sep] + b) == Words(a) + Words(b)
  {
    var s := a + [sep] + b;
    if b == [] {
      assert s == a + [sep] && Front(s) == a;
    } else {
      var t := a + [sep] + Front(b);
      WordsSplit(a, sep, Front(b));
      SplitLast(b);
      assert s == t + [Last(b)];
      assert InWord(t) == InWord(Front(b));
      WordsAppendAfter(Words(a), t, Front(b), Last(b));
    }
  }

  lemma {:induction false} JoinSplit(x: seq<string>, y: seq<string>)
    requires x != [] && y != []
    ensures Join(x + y) == Join(x) + "-" + Join(y)
  {
    assert Last(x + y) == Last(y) && Front(x + y) == x + Front(y);
    if |y| > 1 {
      JoinSplit(x, Front(y));
    } else {
      assert x + Front(y) == x;
    }
  }

  /** Whatever is neither letter nor digit separates: the parts are sanitised and joined, empty ones dropped. */
  lemma SanitizeSplits(a: string, sep: char, b: string)
    requires !IsAlnum(Lower(sep))
    ensures Sanitized(a + [sep] + b) ==
              if Sanitized(a) == "" then Sanitized(b)
              else if Sanitized(b) == "" then Sanitized(a)
              else Sanitized(a) + "-" + Sanitized(b)
  {
    WordsSplit(a, sep, b);
    JoinShape(Words(a));
    JoinShape(Words(b));
    assert Words(a) + [] == Words(a) && [] + Words(b) == Words(b);
    if Words(a) != [] && Words(b) != [] {
      JoinSplit(Words(a), Words(b));
    }
  }

  /** Joining with a dash sanitises the parts. */
  lemma SanitizeJoins(a: string, b: string)
    ensures Sanitized(a + "-" + b) ==
              if Sanitized(a) == "" then Sanitized(b)
              else if Sanitized(b) == "" then Sanitized(a)
              else Sanitized(a) + "-" + Sanitized(b)
  {
    SanitizeSplits(a, '-', b);
  }

  /** Letters and digits all stay, in lower case. */
  lemma LettersStay(s: string)
    requires forall i :: 0 <= i < |s| ==> 'a' <= s[i] <= 'z' || 'A' <= s[i] <= 'Z' || '0' <= s[i] <= '9'
    ensures |Sanitized(s)| == |s|
    ensures forall i :: 0 <= i < |s| ==>
              Sanitized(s)[i] == if 'A' <= s[i] <= 'Z' then (s[i] as int + 32) as char else s[i]
  {
    if s != [] {
      var w := OneWord(s);
      assert Join([w]) == w;
    }
  }

  lemma {:induction false} OneWord(s: string) returns (w: string)
    requires s != []
    requires forall i :: 0 <= i < |s| ==> 'a' <= s[i] <= 'z' || 'A' <= s[i] <= 'Z' || '0' <= s[i] <= '9'
    ensures Words(s) == [w] && |w| == |s| && InWord(s)
    ensures forall i :: 0 <= i < |s| ==> w[i] == if 'A' <= s[i] <= 'Z' then (s[i] as int + 32) as char else s[i]
  {
    var f, c := Front(s), Lower(Last(s));
    if f == [] {
      w := [c];
    } else {
      var v := OneWord(f);
      w := v + [c];
      assert Front([v]) == [] && [] + [w] == [w];
    }
  }

  /** Keys being built: no doubled dash, none in front, perhaps one at the end. */
  ghost predicate Open(s: string) {
    && KeyChars(s)
    && (s != [] ==> s[0] != '-')
    && (forall i :: 0 <= i < |s| - 1 ==> !(s[i] == '-' && s[i + 1] == '-'))
  }

  lemma OpenFront(s: string)
    requires Open(s) && s != []
    ensures Open(Front(s)) && (IsAlnum(Last(s)) || (Front(s) != [] && IsAlnum(Last(Front(s)))))
  {
    if |s| > 1 {
      assert !(s[|s| - 2] == '-' && s[|s| - 2 + 1] == '-');
    }
  }

  /** The builder reproduces a key that is being built. */
  lemma {:induction false} OpenIsBuilt(s: string)
    requires Open(s)
    ensures Built(s, !InWord(s), s)
  {
    if s != [] {
      OpenFront(s);
      OpenIsBuilt(Front(s));
      SplitLast(s);
      BuiltGrows(Front(s), !InWord(Front(s)), Front(s), Last(s));
    }
  }

  /** The keys sanitising leaves alone are exactly those in normal form. */
  lemma FixedIffNormal(key: string)
    ensures Sanitized(key) == key <==> Normal(key)
    ensures Normal(Sanitized(key))
  {
    JoinShape(Words(key));
    if Normal(key) {
      OpenIsBuilt(key);
      assert key == Join(Words(key)) + "" == Sanitized(key);
    }
  }

  lemma SanitizeIdempotent(s: string)
    ensures Sanitized(Sanitized(s)) == Sanitized(s)
  {
    FixedIffNormal(s);
    FixedIffNormal(Sanitized(s));
  }

  // ----- truncation -----

  function TruncateKey(s: string): string {
    TrimRight(if |s| > MAX_KEY then s[..MAX_KEY] else s)
  }

  /** Truncation keeps a prefix in normal form and gives up at most one character more than it must. */
  lemma TruncateKeepsNormal(s: string)
    requires Normal(s)
    ensures Normal(TruncateKey(s)) && TruncateKey(s) <= s && |TruncateKey(s)| <= MAX_KEY
    ensures |s| <= MAX_KEY ==> TruncateKey(s) == s
    ensures |s| > MAX_KEY ==> |TruncateKey(s)| >= MAX_KEY - 1
  {
    var t := if |s| > MAX_KEY then s[..MAX_KEY] else s;
    if |s| > MAX_KEY {
      assert !(s[|t| - 2] == '-' && s[|t| - 2 + 1] == '-');
      TrimKeeps(t, if t[|t| - 2] == '-' then |t| - 1 else |t| - 2);
    }
  }

  // ----- caller-provided keys -----

  /** `hash` is the short hash of the custom key. */
  function NormalizeSessionKey(custom: string, hash: Hash8): string {
    var key := TruncateKey(Sanitized(custom));
    if |key| >= 3 then key else TruncateKey(Sanitized(key + "-" + hash))
  }

  lemma HashIsNormal(hash: Hash8)
    ensures Normal(hash) && Sanitized(hash) == hash
  {
    FixedIffNormal(hash);
  }

  /** Every custom key lands in normal form and in 3..63 characters. */
  lemma NormalizedShape(custom: string, hash: Hash8)
    ensures var key := NormalizeSessionKey(custom, hash);
            Normal(key) && 3 <= |key| <= MAX_KEY
  {
    var key := TruncateKey(Sanitized(custom));
    FixedIffNormal(custom);
    TruncateKeepsNormal(Sanitized(custom));
    if |key| < 3 {
      HashIsNormal(hash);
      SanitizeJoins(key, hash);
      FixedIffNormal(key);
      FixedIffNormal(key + "-" + hash);
      TruncateKeepsNormal(Sanitized(key + "-" + hash));
    }
  }

  /** Normalising twice changes nothing, whatever the second hash is. */
  lemma NormalizeIdempotent(custom: string, hash: Hash8, hash2: Hash8)
    ensures var key := NormalizeSessionKey(custom, hash);
            NormalizeSessionKey(key, hash2) == key
  {
    NormalizedShape(custom, hash);
    var key := NormalizeSessionKey(custom, hash);
    FixedIffNormal(key);
    TruncateKeepsNormal(key);
  }

  /** What a custom key keeps: its sanitised form, cut if too long, or in front of the hash if too short. */
  lemma NormalizedKeeps(custom: string, hash: Hash8)
    ensures var clean, key := Sanitized(custom), NormalizeSessionKey(custom, hash);
            && (3 <= |clean| ==> key <= clean && (|clean| <= MAX_KEY ==> key == clean))
            && (|clean| > MAX_KEY ==> |key| >= MAX_KEY - 1)
            && (1 <= |clean| < 3 ==> key == clean + "-" + hash)
            && (clean == "" ==> key == hash)
  {
    var clean := Sanitized(custom);
    FixedIffNormal(custom);
    TruncateKeepsNormal(clean);
    if |clean| < 3 {
      HashIsNormal(hash);
      FixedIffNormal(clean);
      SanitizeJoins(clean, hash);
      FixedIffNormal(clean + "-" + hash);
      TruncateKeepsNormal(Sanitized(clean + "-" + hash));
    }
  }

  // ----- keys built from repository and number -----

  function ProviderKeyPrefix(provider: string): string {
    match provider
    case "github" => "gh"
    case "gitlab" => "gl"
    case "bitbucket" => "bb"
    case _ => "gen"
  }

  /** The part of a repository path behind its last slash. */
  function RepoName(repo: string): string {
    if repo == [] || Last(repo) == '/' then "" else RepoName(Front(repo)) + [Last(repo)]
  }

  /** It has no slash, it ends the path, and it starts the path or follows a slash. */
  lemma {:induction false} RepoNameIs(repo: string)
    ensures var name := RepoName(repo); var at := |repo| - |name|;
            '/' !in name && 0 <= at && repo[at..] == name && (at > 0 ==> repo[at - 1] == '/')
  {
    if repo != [] && Last(repo) != '/' {
      RepoNameIs(Front(repo));
    }
  }

  /** `hash` is the short hash of the raw key. */
  function SessionKey(prefix: string, repo: string, number: string, hash: Hash8): string {
    var raw := prefix + "-" + repo + "-" + number;
    if |Sanitized(raw)| <= MAX_KEY then Sanitized(raw)
    else
      TruncateKey(prefix + "-" + hash + "-" + NameFor(prefix, repo, number) + "-" + Sanitized(number))
  }

  /** What the hashed form keeps of the repository name. */
  function NameFor(prefix: string, repo: string, number: string): string {
    FittedName(Sanitized(RepoName(repo)), MAX_KEY - (|prefix| + 9) - (1 + |Sanitized(number)|) - 1)
  }

  /** The repository name yields first: it is cut to what head and number leave it. */
  function FittedName(name: string, budget: int): (fitted: string)
    ensures fitted <= name
    ensures budget > 0 ==> |fitted| <= budget
  {
    if |name| > budget && budget > 0 then TrimRight(name[..budget]) else name
  }

  /** Of a name that does not fit, at most one character more is given up than must be. */
  lemma FittedKeeps(name: string, budget: int)
    requires Normal(name)
    ensures |name| <= budget || budget <= 0 ==> FittedName(name, budget) == name
    ensures |name| > budget > 0 ==> budget - 1 <= |FittedName(name, budget)| <= budget
  {
    if |name| > budget > 1 {
      assert !(name[budget - 2] == '-' && name[budget - 2 + 1] == '-');
      TrimKeeps(name[..budget], if name[budget - 2] == '-' then budget - 1 else budget - 2);
    }
  }

  predicate EndsWith(s: string, t: string) {
    |t| <= |s| && s[|s| - |t|..] == t
  }

  lemma EndsWithNumber(a: string, num: string)
    ensures EndsWith(a + "-" + num, "-" + num)
  {}

  lemma PrefixFacts(provider: string)
    ensures var p := ProviderKeyPrefix(provider);
            2 <= |p| <= 3 && Normal(p) && Sanitized(p) == p
  {
    FixedIffNormal(ProviderKeyPrefix(provider));
  }

  /** The short form: prefix, repository and number, each sanitised. */
  lemma ShortForm(p: string, repo: string, number: string)
    requires Normal(p) && p != ""
    ensures var key := Sanitized(p + "-" + repo + "-" + number);
            && p <= key && Normal(key)
            && (Sanitized(number) != "" ==> EndsWith(key, "-" + Sanitized(number)))
  {
    FixedIffNormal(p);
    SanitizeJoins(p + "-" + repo, number);
    SanitizeJoins(p, repo);
    FixedIffNormal(p + "-" + repo + "-" + number);
    EndsWithNumber(Sanitized(p + "-" + repo), Sanitized(number));
  }

  lemma TrimKeeps(s: string, i: nat)
    requires i < |s| && s[i] != '-'
    ensures i < |TrimRight(s)|
  {}

  lemma KeyCharsJoin(a: string, b: string)
    requires KeyChars(a) && KeyChars(b)
    ensures KeyChars(a + b) && KeyChars(a + "-" + b)
  {}

  lemma NormalJoin(a: string, b: string)
    requires Normal(a) && Normal(b) && a != "" && b != ""
    ensures Normal(a + "-" + b)
  {
    var s := a + "-" + b;
    forall i | 0 <= i < |s| - 1 ensures !(s[i] == '-' && s[i + 1] == '-') {
      if i < |a| - 1 {
        assert s[i] == a[i] && s[i + 1] == a[i + 1];
      } else if i > |a| {
        assert s[i] == b[i - |a| - 1] && s[i + 1] == b[i - |a| - 1 + 1];
      }
    }
  }

  /** The hashed form, from its four parts. */
  lemma LongForm(p: string, hash: Hash8, name: string, num: string)
    requires Normal(p) && 2 <= |p| <= 3 && KeyChars(name) && Normal(num)
    ensures var long := p + "-" + hash + "-" + name + "-" + num;
            && KeyChars(long) && p <= TruncateKey(long) && |TruncateKey(long)| <= MAX_KEY
            && (num != "" && |long| <= MAX_KEY ==> TruncateKey(long) == long)
  {
    var long := p + "-" + hash + "-" + name + "-" + num;
    KeyCharsJoin(p, hash);
    KeyCharsJoin(p + "-" + hash, name);
    KeyCharsJoin(p + "-" + hash + "-" + name, num);
    var t := if |long| > MAX_KEY then long[..MAX_KEY] else long;
    assert t[|p| + 8] == hash[7];
    TrimKeeps(t, |p| + 8);
  }

  /** A session key stays in its alphabet and bound, behind its provider's prefix. */
  lemma SessionKeyShape(provider: string, repo: string, number: string, hash: Hash8)
    ensures var p := ProviderKeyPrefix(provider);
            var key := SessionKey(p, repo, number, hash);
            KeyChars(key) && |key| <= MAX_KEY && p <= key
  {
    var p := ProviderKeyPrefix(provider);
    PrefixFacts(provider);
    FixedIffNormal(RepoName(repo));
    FixedIffNormal(number);
    ShortForm(p, repo, number);
    LongForm(p, hash, NameFor(p, repo, number), Sanitized(number));
  }

  /** A key that fits is its sanitised parts, joined. */
  lemma FittingKey(provider: string, repo: string, number: string, hash: Hash8)
    requires |ProviderKeyPrefix(provider)| + 1 + |Sanitized(repo)| + 1 + |Sanitized(number)| <= 63
    requires Sanitized(repo) != "" && Sanitized(number) != ""
    ensures var p := ProviderKeyPrefix(provider);
            SessionKey(p, repo, number, hash) == p + "-" + Sanitized(repo) + "-" + Sanitized(number)
  {
    var p := ProviderKeyPrefix(provider);
    PrefixFacts(provider);
    SanitizeJoins(p, repo);
    SanitizeJoins(p + "-" + repo, number);
  }

  /** A key that does not fit keeps the whole hash behind its prefix, whatever is cut. */
  lemma HashSurvives(provider: string, repo: string, number: string, hash: Hash8)
    requires |Sanitized(ProviderKeyPrefix(provider) + "-" + repo + "-" + number)| > 63
    ensures var p := ProviderKeyPrefix(provider); p + "-" + hash <= SessionKey(p, repo, number, hash)
  {
    var p := ProviderKeyPrefix(provider);
    PrefixFacts(provider);
    var long := p + "-" + hash + "-" + NameFor(p, repo, number) + "-" + Sanitized(number);
    var t := if |long| > MAX_KEY then long[..MAX_KEY] else long;
    assert long[..|p| + 9] == p + "-" + hash && t[|p| + 8] == hash[7];
    TrimKeeps(t, |p| + 8);
  }

  /** Known providers never share keys with each other or with the rest. */
  lemma ProvidersApart(a: string, b: string, repo: string, number: string, repo2: string, number2: string,
                       hash: Hash8, hash2: Hash8)
    requires a != b && (a in {"github", "gitlab", "bitbucket"} || b in {"github", "gitlab", "bitbucket"})
    ensures SessionKey(ProviderKeyPrefix(a), repo, number, hash) !=
              SessionKey(ProviderKeyPrefix(b), repo2, number2, hash2)
  {
    SessionKeyShape(a, repo, number, hash);
    SessionKeyShape(b, repo2, number2, hash2);
    PrefixesApart(a, b);
  }

  lemma PrefixesApart(a: string, b: string)
    requires a != b && (a in {"github", "gitlab", "bitbucket"} || b in {"github", "gitlab", "bitbucket"})
    ensures var p, q := ProviderKeyPrefix(a), ProviderKeyPrefix(b);
            |p| >= 2 && |q| >= 2 && (p[0] != q[0] || p[1] != q[1])
  {}

  // ----- the number -----

  /** What the key puts before the dash and the number. */
  function Stem(p: string, repo: string, number: string, hash: Hash8): string {
    if |Sanitized(p + "-" + repo + "-" + number)| <= MAX_KEY then Sanitized(p + "-" + repo)
    else p + "-" + hash + "-" + NameFor(p, repo, number)
  }

  /**
   * The number has room: it is not empty, and either the key need not be hashed,
   * or the number leaves some room for the repository name, or just enough for
   * none.
   */
  predicate NumberFits(p: string, repo: string, number: string) {
    var num := Sanitized(number);
    && num != ""
    && (|| |Sanitized(p + "-" + repo + "-" + number)| <= MAX_KEY
        || |num| < 52 - |p|
        || (|num| == 52 - |p| && Sanitized(RepoName(repo)) == ""))
  }

  /**
   * Over both paths: the key is what is put together from stem, dash and number,
   * cut short, and it is cut before the number's last character exactly when the
   * number has no room.
   */
  lemma NumberKeptIff(provider: string, repo: string, number: string, hash: Hash8)
    ensures var p := ProviderKeyPrefix(provider);
            var key := SessionKey(p, repo, number, hash);
            var whole := Stem(p, repo, number, hash) + "-" + Sanitized(number);
            && key <= whole
            && (key == whole <==> NumberFits(p, repo, number))
            && (!NumberFits(p, repo, number) ==> |key| < |whole|)
  {
    var p, num := ProviderKeyPrefix(provider), Sanitized(number);
    PrefixFacts(provider);
    if |Sanitized(p + "-" + repo + "-" + number)| <= MAX_KEY {
      ShortWhole(p, repo, number);
    } else {
      FixedIffNormal(number);
      FixedIffNormal(RepoName(repo));
      LongForm(p, hash, NameFor(p, repo, number), num);
      var long := p + "-" + hash + "-" + NameFor(p, repo, number) + "-" + num;
      assert |long| == |p| + |NameFor(p, repo, number)| + |num| + 11;
      assert num == "" ==> Last(long) == '-';
    }
  }

  lemma ShortWhole(p: string, repo: string, number: string)
    requires Normal(p) && p != ""
    ensures var stem, num := Sanitized(p + "-" + repo), Sanitized(number);
            Sanitized(p + "-" + repo + "-" + number) == if num == "" then stem else stem + "-" + num
  {
    FixedIffNormal(p);
    SanitizeJoins(p, repo);
    SanitizeJoins(p + "-" + repo, number);
  }

  /** With room, the number ends the key behind a dash, short key or hashed key. */
  lemma NumberSurvives(provider: string, repo: string, number: string, hash: Hash8)
    requires NumberFits(ProviderKeyPrefix(provider), repo, number)
    ensures EndsWith(SessionKey(ProviderKeyPrefix(provider), repo, number, hash), "-" + Sanitized(number))
  {
    NumberKeptIff(provider, repo, number, hash);
    EndsWithNumber(Stem(ProviderKeyPrefix(provider), repo, number, hash), Sanitized(number));
  }

  /** A number of 1 to 48 characters always has room, whatever provider and repository. */
  lemma UsableNumberFits(provider: string, repo: string, number: string)
    requires 1 <= |Sanitized(number)| <= 48
    ensures NumberFits(ProviderKeyPrefix(provider), repo, number)
  {}

  /** A number that sanitises to nothing, or to 63 characters or more, never ends a key. */
  lemma NumberLost(provider: string, repo: string, number: string, hash: Hash8)
    requires Sanitized(number) == "" || |Sanitized(number)| >= MAX_KEY
    ensures !EndsWith(SessionKey(ProviderKeyPrefix(provider), repo, number, hash), "-" + Sanitized(number))
  {
    var p := ProviderKeyPrefix(provider);
    var key := SessionKey(p, repo, number, hash);
    SessionKeyShape(provider, repo, number, hash);
    FixedIffNormal(p + "-" + repo + "-" + number);
    PrefixFacts(provider);
    if EndsWith(key, "-") {
      assert Last(key) == key[|key| - 1..][0] == '-';
    }
  }

  /** Without room a key may still end in the same characters, but they are not the number's: here, the repository's. */
  lemma NumberEchoed(provider: string, repo: string, number: string, hash: Hash8)
    requires var p, num := ProviderKeyPrefix(provider), Sanitized(number);
             |num| == 53 - |p| && Sanitized(RepoName(repo)) == num
    requires |Sanitized(ProviderKeyPrefix(provider) + "-" + repo + "-" + number)| > MAX_KEY
    ensures var p := ProviderKeyPrefix(provider);
            && !NumberFits(p, repo, number)
            && EndsWith(SessionKey(p, repo, number, hash), "-" + Sanitized(number))
  {
    var p, num := ProviderKeyPrefix(provider), Sanitized(number);
    PrefixFacts(provider);
    FixedIffNormal(number);
    var long := p + "-" + hash + "-" + num + "-" + num;
    var cut := p + "-" + hash + "-" + num;
    assert long[..MAX_KEY] == cut;
    assert TrimRight(cut) == cut;
    EndsWithNumber(p + "-" + hash, num);
  }

  /** The hashed form keeps all its four parts exactly when the number has room. */
  lemma HashedKeyIntactIff(provider: string, repo: string, number: string, hash: Hash8)
    requires |Sanitized(ProviderKeyPrefix(provider) + "-" + repo + "-" + number)| > MAX_KEY
    ensures var p, num := ProviderKeyPrefix(provider), Sanitized(number);
            SessionKey(p, repo, number, hash) == p + "-" + hash + "-" + NameFor(p, repo, number) + "-" + num <==>
              num != "" && (|num| < 52 - |p| || (|num| == 52 - |p| && Sanitized(RepoName(repo)) == ""))
  {
    NumberKeptIff(provider, repo, number, hash);
  }

  // ----- normal form of hashed keys -----

  /** No number: its dash goes, and an empty repository name's dash with it. */
  lemma HashedWithoutNumber(p: string, hash: Hash8, name: string)
    requires Normal(p) && 2 <= |p| <= 3 && Normal(name) && |p| + 9 + 1 + |name| + 1 <= MAX_KEY
    ensures Normal(TruncateKey(p + "-" + hash + "-" + name + "-" + ""))
  {
    HashIsNormal(hash);
    NormalJoin(p, hash);
    var head := p + "-" + hash;
    var long := head + "-" + name + "-" + "";
    if name == "" {
      assert Front(long) == head + "-" && Front(head + "-") == head;
      assert TruncateKey(long) == TrimRight(Front(long)) == TrimRight(head) == head;
    } else {
      NormalJoin(head, name);
      assert Front(long) == head + "-" + name;
      assert TruncateKey(long) == TrimRight(Front(long)) == Front(long);
    }
  }

  /** No name: two dashes meet, and no cut is short enough to part them. */
  lemma HashedWithoutName(p: string, hash: Hash8, num: string)
    requires 2 <= |p| <= 3 && Normal(num) && num != ""
    ensures !Normal(TruncateKey(p + "-" + hash + "-" + "" + "-" + num))
  {
    var long := p + "-" + hash + "-" + "" + "-" + num;
    var t := if |long| > MAX_KEY then long[..MAX_KEY] else long;
    assert t[|p| + 9] == '-' && t[|p| + 9 + 1] == '-' && t[|p| + 11] == num[0];
    TrimKeeps(t, |p| + 11);
    var key := TrimRight(t);
    assert key[|p| + 9] == '-' && key[|p| + 9 + 1] == '-';
  }

  lemma HashedWithBoth(p: string, hash: Hash8, name: string, num: string)
    requires Normal(p) && p != "" && Normal(name) && name != "" && Normal(num) && num != ""
    ensures Normal(TruncateKey(p + "-" + hash + "-" + name + "-" + num))
  {
    HashIsNormal(hash);
    NormalJoin(p, hash);
    NormalJoin(p + "-" + hash, name);
    NormalJoin(p + "-" + hash + "-" + name, num);
    TruncateKeepsNormal(p + "-" + hash + "-" + name + "-" + num);
  }

  /** A hashed key is in normal form exactly when there is no number, or something of the repository's name. */
  lemma HashedKeyNormalIff(provider: string, repo: string, number: string, hash: Hash8)
    requires |Sanitized(ProviderKeyPrefix(provider) + "-" + repo + "-" + number)| > MAX_KEY
    ensures Normal(SessionKey(ProviderKeyPrefix(provider), repo, number, hash)) <==>
              Sanitized(number) == "" || Sanitized(RepoName(repo)) != ""
  {
    var p := ProviderKeyPrefix(provider);
    var full, name, num := Sanitized(RepoName(repo)), NameFor(p, repo, number), Sanitized(number);
    PrefixFacts(provider);
    FixedIffNormal(RepoName(repo));
    FixedIffNormal(number);
    if full != "" {
      FittedNormal(full, MAX_KEY - (|p| + 9) - (1 + |num|) - 1);
    }
    if num == "" {
      HashedWithoutNumber(p, hash, name);
    } else if full == "" {
      HashedWithoutName(p, hash, num);
    } else {
      HashedWithBoth(p, hash, name, num);
    }
  }

  lemma FittedNormal(name: string, budget: int)
    requires Normal(name) && name != ""
    ensures Normal(FittedName(name, budget)) && FittedName(name, budget) != ""
  {
    if |name| > budget && budget > 0 {
      TrimKeeps(name[..budget], 0);
      var t := TrimRight(name[..budget]);
      forall i | 0 <= i < |t| - 1 ensures !(t[i] == '-' && t[i + 1] == '-') {
        assert !(name[i] == '-' && name[i + 1] == '-');
      }
    }
  }
}
