/** The names of the groups the directory creates: how they are spelled, and when two are the same. */
module GroupNaming {
  import AccessLevels
  import AccessProjection

  datatype Kind = HostKind | AppKind

  datatype Level = Access | Admin

  /** What a provisioned group is for. */
  datatype Role =
    | GodAdmin
    | SiteAdmin(site: string)
    | Aggregate(site: string, kind: Kind, level: Level)
    | Own(site: string, kind: Kind, slug: string, level: Level)
    | Everyone(site: string)

  function KindName(k: Kind): string { if k.HostKind? then "host" else "app" }

  function LevelName(l: Level): string { if l.Access? then "access" else "admin" }

  function Name(role: Role): string
  {
    match role
    case GodAdmin => "god_admin"
    case SiteAdmin(site) => site + "_super_admin"
    case Aggregate(site, kind, level) => site + "_" + KindName(kind) + "s_" + LevelName(level)
    case Own(site, kind, slug, level) => site + "_" + KindName(kind) + "_" + slug + "_" + LevelName(level)
    case Everyone(site) => site + "_everyone"
  }

  // ----- names are made of words -----

  predicate IsWord(s: string) { forall k :: 0 <= k < |s| ==> s[k] != '_' }

  predicate IsSlugChar(c: char) { 'a' <= c <= 'z' || '0' <= c <= '9' }

  /** Every run of other characters becomes one dash. */
  function Dashed(s: string): string
  {
    if s == "" then ""
    else
      var init, c := Dashed(s[..|s| - 1]), s[|s| - 1];
      if IsSlugChar(c) then init + [c]
      else if init != "" && init[|init| - 1] == '-' then init
      else init + "-"
  }

  function Trimmed(s: string): string
  {
    var front := if s != "" && s[0] == '-' then s[1..] else s;
    if front != "" && front[|front| - 1] == '-' then front[..|front| - 1] else front
  }

  function Slugify(name: string): string
  {
    Trimmed(Dashed(AccessLevels.Lower(name)))
  }

  /** The slug part of a resource's group names. */
  function NameSlug(resourceSlug: string): string
  {
    Slugify(AccessProjection.StripKind(resourceSlug))
  }

  predicate IsDashed(s: string)
  {
    && (forall k :: 0 <= k < |s| ==> IsSlugChar(s[k]) || s[k] == '-')
    && (forall k :: 0 <= k < |s| - 1 ==> IsSlugChar(s[k]) || IsSlugChar(s[k + 1]))
  }

  /** A slug never holds the delimiter, and has no dash at either end nor two in a row. */
  lemma SlugIsAWord(name: string)
    ensures var w := Slugify(name);
      IsWord(w) && IsDashed(w) && (w != "" ==> IsSlugChar(w[0]) && IsSlugChar(w[|w| - 1]))
  {
    var d := Dashed(AccessLevels.Lower(name));
    DashedIsDashed(AccessLevels.Lower(name));
    var front := if d != "" && d[0] == '-' then d[1..] else d;
    assert IsDashed(front);
    assert front != "" ==> IsSlugChar(front[0]);
  }

  lemma {:induction false} DashedIsDashed(s: string)
    ensures IsDashed(Dashed(s))
    decreases |s|
  {
    if s != "" {
      DashedIsDashed(s[..|s| - 1]);
      var init, d := Dashed(s[..|s| - 1]), Dashed(s);
      assert d == init || d == init + [d[|d| - 1]];
    }
  }

  /** A name is its site, or `god`, followed by words, each behind the delimiter. */
  function Base(role: Role): string
  {
    if role.GodAdmin? then "god" else role.site
  }

  function Words(role: Role): seq<string>
  {
    match role
    case GodAdmin => ["admin"]
    case SiteAdmin(_) => ["super", "admin"]
    case Aggregate(_, kind, level) => [KindName(kind) + "s", LevelName(level)]
    case Own(_, kind, slug, level) => [KindName(kind), slug, LevelName(level)]
    case Everyone(_) => ["everyone"]
  }

  function Spell(base: string, words: seq<string>): string
  {
    if words == [] then base else Spell(base, words[..|words| - 1]) + "_" + words[|words| - 1]
  }

  lemma SpellTwo(base: string, v: string, w: string)
    ensures Spell(base, [v]) == base + "_" + v
    ensures Spell(base, [v, w]) == base + "_" + v + "_" + w
  {
    assert [v][..0] == [] && [v, w][..1] == [v];
  }

  lemma SpellThree(base: string, u: string, v: string, w: string)
    ensures Spell(base, [u, v, w]) == base + "_" + u + "_" + v + "_" + w
  {
    SpellTwo(base, u, v);
    assert [u, v, w][..2] == [u, v];
  }

  lemma NameIsSpelled(role: Role)
    ensures Name(role) == Spell(Base(role), Words(role))
  {
    match role
    case GodAdmin => SpellTwo("god", "admin", "");
    case SiteAdmin(site) => SiteAdminIsSpelled(site);
    case Aggregate(site, kind, level) => AggregateIsSpelled(site, KindName(kind), LevelName(level));
    case Own(site, kind, slug, level) => SpellThree(site, KindName(kind), slug, LevelName(level));
    case Everyone(site) => SpellTwo(site, "everyone", "");
  }

  lemma SiteAdminIsSpelled(site: string)
    ensures site + "_super_admin" == Spell(site, ["super", "admin"])
  {
    SpellTwo(site, "super", "admin");
  }

  lemma AggregateIsSpelled(site: string, kind: string, level: string)
    ensures site + "_" + kind + "s_" + level == Spell(site, [kind + "s", level])
  {
    SpellTwo(site, kind + "s", level);
    assert site + "_" + kind + "s_" + level == site + "_" + (kind + "s") + "_" + level;
  }

  ghost predicate AllWords(words: seq<string>) { forall k :: 0 <= k < |words| ==> IsWord(words[k]) }

  lemma LastWordIsUnique(a: string, v: string, b: string, w: string)
    requires a + "_" + v == b + "_" + w && IsWord(v) && IsWord(w)
    ensures a == b && v == w
  {
    var s := a + "_" + v;
    assert s[|a|] == '_' && s[|b|] == '_';
    assert forall k :: |a| < k < |s| ==> s[k] == v[k - |a| - 1];
    assert forall k :: |b| < k < |s| ==> s[k] == w[k - |b| - 1];
    assert |a| == |b|;
    assert a == s[..|a|] && b == s[..|b|] && v == s[|a| + 1..] && w == s[|b| + 1..];
  }

  lemma {:induction false} SpelledIsUnique(a: string, v: seq<string>, b: string, w: seq<string>)
    requires |v| == |w| && AllWords(v) && AllWords(w) && Spell(a, v) == Spell(b, w)
    ensures a == b && v == w
    decreases |v|
  {
    var n := |v|;
    if n > 0 {
      LastWordIsUnique(Spell(a, v[..n - 1]), v[n - 1], Spell(b, w[..n - 1]), w[n - 1]);
      SpelledIsUnique(a, v[..n - 1], b, w[..n - 1]);
      assert v == v[..n - 1] + [v[n - 1]] && w == w[..n - 1] + [w[n - 1]];
    }
  }

  lemma WordsAreWords(role: Role)
    requires role.Own? ==> IsWord(role.slug)
    ensures AllWords(Words(role))
  {
  }

  lemma WordsTellRoles(a: Role, b: Role)
    requires Base(a) == Base(b) && Words(a) == Words(b)
    ensures a == b
  {
    var v, w := Words(a), Words(b);
    assert v[0] == w[0] && |v[0]| == |w[0]| && v[0][0] == w[0][0];
    if |v| == 2 {
      assert v[1] == w[1] && v[1][1] == w[1][1];
    } else if |v| == 3 {
      assert v[1] == w[1] && v[2] == w[2] && v[2][1] == w[2][1];
    }
  }

  // ----- when do two roles share a name? -----

  /** The parts of the name are words. Slugs are, and the rest is fixed; sites are free. */
  predicate WellFormed(r: Role) { r.Own? ==> IsWord(r.slug) }

  /** The site's name followed by a kind, as if it were another site. */
  function Beside(site: string, kind: Kind): string { site + "_" + KindName(kind) }

  /** The groups of a resource slugged `hosts` or `apps` are named like the aggregates of a site named
      after this one and the resource's kind. */
  predicate LikeAggregate(a: Role, b: Role)
  {
    && a.Own? && b.Aggregate?
    && b.site == Beside(a.site, a.kind) && a.slug == KindName(b.kind) + "s" && a.level == b.level
  }

  /** The admin group of a resource slugged `super` is named like the admin group of such a site. */
  predicate LikeSiteAdmin(a: Role, b: Role)
  {
    a.Own? && b.SiteAdmin? && b.site == Beside(a.site, a.kind) && a.slug == "super" && a.level == Admin
  }

  predicate Alike(a: Role, b: Role)
  {
    LikeAggregate(a, b) || LikeSiteAdmin(a, b)
  }

  /** The exact condition under which two roles share a name. */
  lemma NameIsSharedIff(a: Role, b: Role)
    requires WellFormed(a) && WellFormed(b)
    ensures Name(a) == Name(b) <==> a == b || Alike(a, b) || Alike(b, a)
  {
    if |Words(a)| == |Words(b)| {
      SameLength(a, b);
    } else if |Words(a)| < |Words(b)| {
      Shorter(a, b);
    } else {
      Shorter(b, a);
    }
  }

  lemma SameLength(a: Role, b: Role)
    requires WellFormed(a) && WellFormed(b) && |Words(a)| == |Words(b)|
    ensures Name(a) == Name(b) <==> a == b
    ensures !Alike(a, b) && !Alike(b, a)
  {
    if Name(a) == Name(b) {
      SameLengthIsSame(a, b);
    }
  }

  lemma SameLengthIsSame(a: Role, b: Role)
    requires WellFormed(a) && WellFormed(b) && |Words(a)| == |Words(b)| && Name(a) == Name(b)
    ensures a == b
  {
    NameIsSpelled(a);
    NameIsSpelled(b);
    WordsAreWords(a);
    WordsAreWords(b);
    SpelledIsUnique(Base(a), Words(a), Base(b), Words(b));
    WordsTellRoles(a, b);
  }

  lemma Shorter(a: Role, b: Role)
    requires WellFormed(a) && WellFormed(b) && |Words(a)| < |Words(b)|
    ensures Name(a) == Name(b) <==> Alike(b, a)
    ensures a != b && !Alike(a, b)
  {
    WordsAreWords(a);
    WordsAreWords(b);
    LastWordsAgree(a, b);
    if |Words(a)| == 1 {
      OneWordIsAlone(a, b);
    } else {
      TwoAndThree(a, b);
    }
  }

  /** What stands before the last word. */
  function Front(r: Role): string
  {
    match r
    case GodAdmin => "god"
    case SiteAdmin(site) => site + "_super"
    case Aggregate(site, kind, _) => site + "_" + (KindName(kind) + "s")
    case Own(site, kind, slug, _) => Beside(site, kind) + "_" + slug
    case Everyone(site) => site
  }

  function LastWord(r: Role): string { Words(r)[|Words(r)| - 1] }

  lemma NameIsFrontAndLast(r: Role)
    ensures Name(r) == Front(r) + "_" + LastWord(r)
  {
    if r.SiteAdmin? {
      assert "_super_admin" == "_super" + "_admin" && "_admin" == "_" + "admin";
    } else if r.GodAdmin? {
      assert "god_admin" == "god" + "_" + "admin";
    } else if r.Aggregate? {
      assert KindName(r.kind) + "s_" == KindName(r.kind) + "s" + "_";
    }
  }

  lemma LastWordsAgree(a: Role, b: Role)
    requires WellFormed(a) && WellFormed(b)
    ensures Name(a) == Name(b) <==> Front(a) == Front(b) && LastWord(a) == LastWord(b)
  {
    NameIsFrontAndLast(a);
    NameIsFrontAndLast(b);
    WordsAreWords(a);
    WordsAreWords(b);
    if Name(a) == Name(b) {
      LastWordIsUnique(Front(a), LastWord(a), Front(b), LastWord(b));
    }
  }

  lemma OneWordIsAlone(a: Role, b: Role)
    requires |Words(a)| == 1 < |Words(b)|
    ensures Front(a) != Front(b) || LastWord(a) != LastWord(b)
  {
    if a.GodAdmin? {
      assert '_' in Front(b) by {
        assert Front(b)[|Base(b)|] == '_';
      }
      assert '_' !in "god";
    } else {
      assert LastWord(a)[0] == 'e' && LastWord(b)[0] == 'a';
    }
  }

  lemma TwoAndThree(a: Role, b: Role)
    requires WellFormed(a) && WellFormed(b) && |Words(a)| == 2 && b.Own?
    ensures Front(a) == Front(b) && LastWord(a) == LastWord(b) <==> Alike(b, a)
  {
    LevelsByName(Admin, b.level);
    var second := Words(a)[0];
    assert Front(a) == a.site + "_" + second by {
      assert "_super" == "_" + "super";
    }
    if Front(a) == Front(b) {
      LastWordIsUnique(a.site, second, Beside(b.site, b.kind), b.slug);
    }
    if a.Aggregate? {
      LevelsByName(a.level, b.level);
    }
  }

  lemma LevelsByName(l: Level, m: Level)
    ensures LevelName(l) == LevelName(m) <==> l == m
  {
    assert LevelName(l)[1] == LevelName(m)[1] <==> l == m;
  }

  // ----- one role for each name -----

  ghost predicate Splits(site: string, s: string, k: Kind) { site == Beside(s, k) }

  /** Of the roles that share a name, the one that belongs to the shorter site, or the site's own. */
  ghost function Canonical(r: Role): Role
  {
    match r
    case Aggregate(site, kind, level) =>
      if s, k :| Splits(site, s, k) then Own(s, k, KindName(kind) + "s", level) else r
    case Own(site, kind, slug, level) =>
      if slug == "super" && level == Admin then SiteAdmin(Beside(site, kind)) else r
    case _ => r
  }

  lemma SplitIsUnique(site: string, s: string, k: Kind, t: string, m: Kind)
    requires Splits(site, s, k) && Splits(site, t, m)
    ensures s == t && k == m
  {
    LastWordIsUnique(s, KindName(k), t, KindName(m));
    assert KindName(k)[0] == KindName(m)[0];
  }

  lemma SharedNameIsOneRole(a: Role, b: Role)
    requires WellFormed(a) && WellFormed(b) && Name(a) == Name(b)
    ensures Canonical(a) == Canonical(b)
  {
    NameIsSharedIff(a, b);
    if Alike(a, b) {
      AlikeIsOneRole(a, b);
    } else if Alike(b, a) {
      AlikeIsOneRole(b, a);
    }
  }

  lemma AlikeIsOneRole(a: Role, b: Role)
    requires Alike(a, b)
    ensures Canonical(a) == Canonical(b)
  {
    if LikeAggregate(a, b) {
      assert Splits(b.site, a.site, a.kind);
      var s, k :| Splits(b.site, s, k) && Canonical(b) == Own(s, k, KindName(b.kind) + "s", b.level);
      SplitIsUnique(b.site, s, k, a.site, a.kind);
      assert a.slug[0] != "super"[0];
    }
  }
}
