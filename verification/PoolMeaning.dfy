/** Which pools a profile selects, and when each state is reported, said by fields and texts. */
module PoolMeaning {
  import opened Common
  import opened Readiness
  import opened ReadinessPools
  import opened ReadinessMeaning

  // ----- names and labels --------------------------------------------------------------

  predicate NameSet(c: char) {
    c in {'_', '.', '-'} || 'a' <= c <= 'z' || 'A' <= c <= 'Z' || '0' <= c <= '9'
  }

  predicate Words(s: string) {
    |s| > 0 && forall i :: 0 <= i < |s| ==> NameSet(s[i])
  }

  lemma NamesMean(name: Option<string>)
    ensures ValidName(name) <==> name.Some? && Words(name.value) && |name.value| <= 100
    ensures name.Some? ==> (NameText(name.value) <==> Words(name.value))
  {
  }

  /** The labels a pool declares; without any, the name of its scale set, or of the pool itself. */
  function Declared(pool: Resource): seq<Option<string>> {
    match pool.spec.runnerLabels
    case Some(labels) => labels
    case None =>
      match pool.spec.scaleSetName
      case Some(name) => [name]
      case None => [pool.meta.name]
  }

  /** Every declared label is a name of at most 100 characters, and there is one. */
  ghost predicate Readable(pool: Resource) {
    |Declared(pool)| > 0
    && forall i :: 0 <= i < |Declared(pool)| ==>
         Declared(pool)[i].Some? && Words(Declared(pool)[i].value) && |Declared(pool)[i].value| <= 100
  }

  ghost predicate Offers(pool: Resource, wanted: set<string>) {
    Readable(pool) && forall tag :: tag in wanted ==> Some(tag) in Declared(pool)
  }

  lemma ReadableMeans(pool: Resource)
    ensures PoolLabels(pool).Some? <==> Readable(pool)
    ensures PoolLabels(pool).Some? ==>
              PoolLabels(pool).value == set i | 0 <= i < |Declared(pool)| :: Declared(pool)[i].value
  {
    var labels := Declared(pool);
    assert PoolLabels(pool) == ReadLabels(labels);
    forall i | 0 <= i < |labels|
      ensures ValidName(labels[i]) <==> labels[i].Some? && Words(labels[i].value) && |labels[i].value| <= 100
    {
      NamesMean(labels[i]);
    }
  }

  lemma OfferedTags(labels: seq<Option<string>>, available: set<string>, tag: string)
    requires forall i :: 0 <= i < |labels| ==> labels[i].Some?
    requires available == set i | 0 <= i < |labels| :: labels[i].value
    ensures tag in available <==> Some(tag) in labels
  {
    if tag in available {
      var i :| 0 <= i < |labels| && labels[i].value == tag;
      assert labels[i] == Some(tag);
    }
    if Some(tag) in labels {
      var i :| 0 <= i < |labels| && labels[i] == Some(tag);
      assert labels[i].value == tag;
    }
  }

  lemma LabelsMean(pool: Resource, wanted: set<string>)
    ensures PoolLabels(pool).Some? <==> Readable(pool)
    ensures Carries(pool, wanted) <==> Offers(pool, wanted)
  {
    ReadableMeans(pool);
    if Readable(pool) {
      forall tag: string
        ensures tag in PoolLabels(pool).value <==> Some(tag) in Declared(pool)
      {
        OfferedTags(Declared(pool), PoolLabels(pool).value, tag);
      }
    }
  }

  // ----- scope -------------------------------------------------------------------------

  /** The texts differ at most in the case of their letters. */
  ghost predicate SameLetters(a: string, b: string) {
    |a| == |b| && forall i :: 0 <= i < |a| ==>
      || a[i] == b[i]
      || ('a' <= a[i] <= 'z' && b[i] as int == a[i] as int - 32)
      || ('a' <= b[i] <= 'z' && a[i] as int == b[i] as int - 32)
  }

  lemma LowerMeans(a: string, b: string)
    ensures Lower(a) == Lower(b) <==> SameLetters(a, b)
  {
    if Lower(a) == Lower(b) {
      forall i | 0 <= i < |a|
        ensures || a[i] == b[i]
                || ('a' <= a[i] <= 'z' && b[i] as int == a[i] as int - 32)
                || ('a' <= b[i] <= 'z' && a[i] as int == b[i] as int - 32)
      {
        assert Lower(a)[i] == LowerChar(a[i]) && Lower(b)[i] == LowerChar(b[i]) && |Lower(b)| == |b|;
      }
    }
  }

  /** An owner, or an owner and a repository. */
  ghost predicate IsTarget(target: string) {
    Words(target) || exists owner, name :: target == owner + "/" + name && Words(owner) && Words(name)
  }

  /** The URL of this target, with or without a slash at its end. */
  ghost predicate UrlOf(url: string, target: string) {
    IsTarget(target) && (url == "https://github.com/" + target || url == "https://github.com/" + target + "/")
  }

  lemma WordsHaveNoSlash(s: string)
    requires Words(s)
    ensures '/' !in s
  {
  }

  lemma OrganizationOfWords(owner: string, rest: string)
    requires '/' !in owner && (rest == "" || rest[0] == '/')
    ensures Organization(owner + rest) == owner
    decreases |owner|
  {
    if owner == "" {
      assert owner + rest == rest;
    } else {
      assert owner[0] in owner;
      assert (owner + rest)[1..] == owner[1..] + rest;
      assert forall c :: c in owner[1..] ==> c in owner;
      OrganizationOfWords(owner[1..], rest);
      assert owner == [owner[0]] + owner[1..];
    }
  }

  lemma TargetOfWords(target: string)
    requires Words(target)
    ensures Target(target)
  {
    WordsHaveNoSlash(target);
    OrganizationOfWords(target, "");
    assert target + "" == target;
  }

  lemma TargetOfTwo(target: string, owner: string, name: string)
    requires target == owner + "/" + name && Words(owner) && Words(name)
    ensures Target(target)
  {
    WordsHaveNoSlash(owner);
    assert target == owner + ("/" + name);
    OrganizationOfWords(owner, "/" + name);
    assert target[|owner| + 1..] == name;
  }

  lemma TargetMeans(target: string)
    ensures Target(target) <==> IsTarget(target)
  {
    if Target(target) {
      OrganizationIsPrefix(target);
      var o := Organization(target);
      assert Words(o);
      if |o| < |target| {
        assert target == o + "/" + target[|o| + 1..] && Words(target[|o| + 1..]);
      } else {
        assert target == o;
      }
    }
    if IsTarget(target) {
      if Words(target) {
        TargetOfWords(target);
      } else {
        var owner, name :| target == owner + "/" + name && Words(owner) && Words(name);
        TargetOfTwo(target, owner, name);
      }
    }
  }

  /** What follows the host, without a slash at its end. */
  lemma UrlMeans(url: string, target: string)
    ensures TargetOf(url) == Some(target) <==> UrlOf(url, target)
  {
    TargetMeans(target);
    if HOST <= url {
      var rest := url[|HOST|..];
      assert url == HOST + rest;
      if rest != "" && rest[|rest| - 1] == '/' {
        assert rest == rest[..|rest| - 1] + "/";
      }
    }
    if UrlOf(url, target) {
      EndsInAWord(target);
      assert url[|HOST|..] == target || url[|HOST|..] == target + "/";
      assert (target + "/")[..|target|] == target;
    }
  }

  lemma EndsInAWord(target: string)
    requires IsTarget(target)
    ensures target != "" && target[|target| - 1] != '/'
  {
    if !Words(target) {
      var owner, name :| target == owner + "/" + name && Words(owner) && Words(name);
      assert target[|target| - 1] == name[|name| - 1];
    }
  }

  /** The text before the first slash, or all of it. */
  ghost predicate OwnerOf(repository: string, owner: string) {
    '/' !in owner && (repository == owner || (|owner| < |repository| && repository[..|owner|] == owner
                                              && repository[|owner|] == '/'))
  }

  lemma OwnerMeans(repository: string, owner: string)
    ensures OwnerOf(repository, owner) <==> owner == Organization(repository)
  {
    OrganizationIsPrefix(repository);
    OwnerHasNoSlash(repository);
    if OwnerOf(repository, owner) {
      assert repository == owner + repository[|owner|..];
      OrganizationOfWords(owner, repository[|owner|..]);
    }
  }

  lemma {:induction false} OwnerHasNoSlash(s: string)
    ensures '/' !in Organization(s)
  {
    if s != "" && s[0] != '/' { OwnerHasNoSlash(s[1..]); }
  }

  /**
   * A pool belongs to the repository, or to its owner, exactly if its URL is that of the host and a target that is the
   * same but for the case of letters; it is elsewhere for another target, and unknown for any other URL.
   */
  lemma ScopeMeans(pool: Resource, repository: string)
    ensures Scope(pool, repository) == OwnRepository
       <==> pool.spec.url.Some? && exists target ::
              UrlOf(pool.spec.url.value, target) && SameLetters(target, repository)
    ensures Scope(pool, repository) in {OwnRepository, OwnOrganization}
       <==> pool.spec.url.Some? && exists target ::
              && UrlOf(pool.spec.url.value, target)
              && (|| SameLetters(target, repository)
                  || exists owner :: OwnerOf(repository, owner) && SameLetters(target, owner))
    ensures Scope(pool, repository) == BindingUnknown
       <==> pool.spec.url.None? || forall target :: !UrlOf(pool.spec.url.value, target)
  {
    if pool.spec.url.Some? {
      var url, owner := pool.spec.url.value, Organization(repository);
      OwnerMeans(repository, owner);
      forall target: string
        ensures UrlOf(url, target) <==> TargetOf(url) == Some(target)
        ensures SameLetters(target, repository) <==> Lower(target) == Lower(repository)
        ensures (exists o :: OwnerOf(repository, o) && SameLetters(target, o)) <==> Lower(target) == Lower(owner)
      {
        UrlMeans(url, target);
        LowerMeans(target, repository);
        LowerMeans(target, owner);
        forall o: string
          ensures OwnerOf(repository, o) <==> o == owner
        {
          OwnerMeans(repository, o);
        }
      }
    }
  }
}
