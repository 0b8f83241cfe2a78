/** `keyMatch2(r.obj, p.obj)` of the matcher, in a simplified form defined on
    `/`-separated segments: a pattern segment `:name` matches any one non-empty
    segment, a final pattern segment `*` matches the rest of the path (one or
    more segments, possibly empty ones), and every other segment matches only
    itself, case-sensitively. */
module KeyMatch {

  /** The segments of `s` between its `/` characters, left to right. */
  function Split(s: string): (segs: seq<string>)
    ensures |segs| >= 1
    ensures forall i :: 0 <= i < |segs| ==> '/' !in segs[i]
  {
    if s == [] then [""]
    else
      var rest := Split(s[1..]);
      if s[0] == '/' then [""] + rest
      else [[s[0]] + rest[0]] + rest[1..]
  }

  /** The segments, separated by `/`. */
  function Join(segs: seq<string>): string
    requires |segs| >= 1
  {
    if |segs| == 1 then segs[0] else segs[0] + "/" + Join(segs[1..])
  }

  lemma JoinConsHead(c: char, segs: seq<string>)
    requires |segs| >= 1
    ensures Join([[c] + segs[0]] + segs[1..]) == [c] + Join(segs)
  {
    var head, rest := [c] + segs[0], segs[1..];
    var x := [head] + rest;
    if rest == [] {
      assert x == [head];
    } else {
      assert Join(x) == head + "/" + Join(rest) by {
        assert x[0] == head && x[1..] == rest;
      }
      assert Join(segs) == segs[0] + "/" + Join(rest);
      AppendAssoc3(c, segs[0], Join(rest));
    }
  }

  lemma AppendAssoc3(c: char, a: string, b: string)
    ensures ([c] + a) + "/" + b == [c] + (a + "/" + b)
  {
  }

  /** Joining the segments of a path gives the path back. */
  lemma {:induction false} JoinSplit(s: string)
    ensures Join(Split(s)) == s
  {
    if s != [] {
      JoinSplit(s[1..]);
      var rest := Split(s[1..]);
      if s[0] == '/' {
        assert ([""] + rest)[1..] == rest;
        assert s == "/" + s[1..];
      } else {
        JoinConsHead(s[0], rest);
        assert s == [s[0]] + s[1..];
      }
    }
  }

  /** Equal segment lists come only from equal paths. */
  lemma SplitInjective(a: string, b: string)
    requires Split(a) == Split(b)
    ensures a == b
  {
    JoinSplit(a);
    JoinSplit(b);
  }

  /** Splitting at an added `/` concatenates the two segment lists. */
  lemma {:induction false} SplitAppend(a: string, b: string)
    ensures Split(a + "/" + b) == Split(a) + Split(b)
  {
    if a == [] {
      assert a + "/" + b == "/" + b;
      assert ("/" + b)[1..] == b;
    } else {
      var ab := a + "/" + b;
      assert ab[0] == a[0] && ab[1..] == a[1..] + "/" + b;
      SplitAppend(a[1..], b);
    }
  }

  /** A string without `/` is a single segment. */
  lemma {:induction false} SplitNoSlash(w: string)
    requires '/' !in w
    ensures Split(w) == [w]
  {
    if w != [] {
      SplitNoSlash(w[1..]);
      assert w == [w[0]] + w[1..];
    }
  }

  /** Joining two segment lists puts one `/` between them. */
  lemma {:induction false} JoinAppend(x: seq<string>, y: seq<string>)
    requires |x| >= 1 && |y| >= 1
    ensures Join(x + y) == Join(x) + "/" + Join(y)
  {
    if |x| > 1 {
      assert (x + y)[1..] == x[1..] + y;
      JoinAppend(x[1..], y);
    } else {
      assert (x + y)[1..] == y;
    }
  }

  /** Segments without `/` survive a join and a split unchanged. */
  lemma {:induction false} SplitJoin(segs: seq<string>)
    requires |segs| >= 1
    requires forall i :: 0 <= i < |segs| ==> '/' !in segs[i]
    ensures Split(Join(segs)) == segs
  {
    SplitNoSlash(segs[0]);
    if |segs| > 1 {
      SplitJoin(segs[1..]);
      SplitAppend(segs[0], Join(segs[1..]));
      assert segs == [segs[0]] + segs[1..];
    }
  }

  /** A pattern segment `:name` stands for one path parameter. */
  predicate IsParam(seg: string)
  {
    |seg| >= 2 && seg[0] == ':'
  }

  predicate SegmentMatches(key: string, pat: string)
  {
    if IsParam(pat) then key != "" else key == pat
  }

  predicate MatchSegments(keys: seq<string>, pats: seq<string>)
    decreases |pats|
  {
    if pats == [] then keys == []
    else if pats == ["*"] then keys != []
    else keys != [] && SegmentMatches(keys[0], pats[0]) && MatchSegments(keys[1..], pats[1..])
  }

  /** Simplified `keyMatch2(key, pattern)`. */
  predicate KeyMatch2(key: string, pattern: string)
  {
    MatchSegments(Split(key), Split(pattern))
  }

  /** Segments that are neither a parameter nor a wildcard. */
  predicate AllLiteral(segs: seq<string>)
  {
    forall i :: 0 <= i < |segs| ==> !IsParam(segs[i]) && segs[i] != "*"
  }

  /** A pattern path with no parameter and no wildcard segment. */
  predicate IsLiteral(pattern: string)
  {
    AllLiteral(Split(pattern))
  }

  /** A literal prefix of the pattern has to be matched segment by segment. */
  lemma {:induction false} MatchLiteralPrefix(keys: seq<string>, lits: seq<string>, tail: seq<string>)
    requires AllLiteral(lits) && tail != []
    ensures MatchSegments(keys, lits + tail) <==>
            |keys| >= |lits| && keys[..|lits|] == lits && MatchSegments(keys[|lits|..], tail)
  {
    if lits != [] {
      var pats := lits + tail;
      assert pats[0] == lits[0] && pats[1..] == lits[1..] + tail;
      assert pats != ["*"];
      MatchLiteralPrefix(if keys == [] then [] else keys[1..], lits[1..], tail);
      if keys != [] {
        assert keys == [keys[0]] + keys[1..];
        if |keys| >= |lits| {
          assert keys[1..][..|lits| - 1] == keys[1..|lits|];
          assert keys[1..][|lits| - 1..] == keys[|lits|..];
          assert keys[..|lits|] == [keys[0]] + keys[1..|lits|];
          assert lits == [lits[0]] + lits[1..];
        }
      }
    } else {
      assert lits + tail == tail;
    }
  }

  lemma {:induction false} MatchLiteral(keys: seq<string>, lits: seq<string>)
    requires AllLiteral(lits)
    ensures MatchSegments(keys, lits) <==> keys == lits
  {
    if lits != [] {
      assert lits[0] != "*";
      assert lits != ["*"];
      MatchLiteral(if keys == [] then [] else keys[1..], lits[1..]);
      if keys != [] {
        assert keys == [keys[0]] + keys[1..];
        assert lits == [lits[0]] + lits[1..];
      }
    }
  }

  /** A literal pattern matches exactly the path it spells. */
  lemma LiteralMatchesOnlyItself(key: string, pattern: string)
    requires IsLiteral(pattern)
    ensures KeyMatch2(key, pattern) <==> key == pattern
  {
    MatchLiteral(Split(key), Split(pattern));
    if Split(key) == Split(pattern) {
      SplitInjective(key, pattern);
    }
  }

  /** A trailing wildcard segment after `prefix` matches exactly the paths that start with `prefix` and a slash. */
  lemma WildcardMatchesExtensions(key: string, prefix: string)
    requires IsLiteral(prefix)
    ensures KeyMatch2(key, prefix + "/*") <==>
            |key| > |prefix| && key[..|prefix| + 1] == prefix + "/"
  {
    var lits := Split(prefix);
    assert prefix + "/*" == prefix + "/" + "*";
    SplitAppend(prefix, "*");
    SplitNoSlash("*");
    var keys := Split(key);
    MatchLiteralPrefix(keys, lits, ["*"]);
    if KeyMatch2(key, prefix + "/*") {
      var rest := keys[|lits|..];
      assert keys == lits + rest;
      JoinSplit(key);
      JoinSplit(prefix);
      JoinAppend(lits, rest);
      assert key == prefix + "/" + Join(rest);
    }
    if |key| > |prefix| && key[..|prefix| + 1] == prefix + "/" {
      var rest := key[|prefix| + 1..];
      assert key == prefix + "/" + rest;
      SplitAppend(prefix, rest);
      assert keys[..|lits|] == lits;
    }
  }

  lemma ParamMatchSound(key: string, prefix: string, param: string)
    requires IsLiteral(prefix) && IsParam(param) && '/' !in param
    requires KeyMatch2(key, prefix + "/" + param)
    ensures |key| > |prefix| + 1 && key[..|prefix| + 1] == prefix + "/" && '/' !in key[|prefix| + 1..]
  {
    var lits := Split(prefix);
    SplitAppend(prefix, param);
    SplitNoSlash(param);
    var keys := Split(key);
    MatchLiteralPrefix(keys, lits, [param]);
    var rest := keys[|lits|..];
    assert rest == [rest[0]] && rest[0] != "";
    assert keys == lits + rest;
    JoinSplit(key);
    JoinSplit(prefix);
    JoinAppend(lits, rest);
    assert key == prefix + "/" + rest[0];
    assert key[|prefix| + 1..] == rest[0];
  }

  lemma ParamMatchComplete(key: string, prefix: string, param: string)
    requires IsLiteral(prefix) && IsParam(param) && '/' !in param
    requires |key| > |prefix| + 1 && key[..|prefix| + 1] == prefix + "/" && '/' !in key[|prefix| + 1..]
    ensures KeyMatch2(key, prefix + "/" + param)
  {
    var lits := Split(prefix);
    SplitAppend(prefix, param);
    SplitNoSlash(param);
    var seg := key[|prefix| + 1..];
    assert key == prefix + "/" + seg;
    SplitAppend(prefix, seg);
    SplitNoSlash(seg);
    var keys := Split(key);
    MatchLiteralPrefix(keys, lits, [param]);
    assert keys == lits + [seg];
    assert keys[|lits|..] == [seg];
  }

  /** `prefix/:name` matches exactly `prefix/` followed by one non-empty segment. */
  lemma ParamMatchesOneSegment(key: string, prefix: string, name: string)
    requires IsLiteral(prefix)
    requires name != "" && '/' !in name
    ensures KeyMatch2(key, prefix + "/:" + name) <==>
            |key| > |prefix| + 1 && key[..|prefix| + 1] == prefix + "/" && '/' !in key[|prefix| + 1..]
  {
    var param := ":" + name;
    assert prefix + "/:" + name == prefix + "/" + param;
    assert IsParam(param);
    if KeyMatch2(key, prefix + "/" + param) {
      ParamMatchSound(key, prefix, param);
    }
    if |key| > |prefix| + 1 && key[..|prefix| + 1] == prefix + "/" && '/' !in key[|prefix| + 1..] {
      ParamMatchComplete(key, prefix, param);
    }
  }

  /** One more literal segment keeps a pattern literal. */
  lemma LiteralAppend(a: string, seg: string)
    requires IsLiteral(a)
    requires '/' !in seg && !IsParam(seg) && seg != "*"
    ensures IsLiteral(a + "/" + seg)
  {
    SplitAppend(a, seg);
    SplitNoSlash(seg);
  }

  lemma ApiIsLiteral()
    ensures IsLiteral("/api")
  {
    assert IsLiteral("") by {
      assert Split("") == [""];
    }
    LiteralAppend("", "api");
    assert "" + "/" + "api" == "/api";
  }

  lemma ApiUserIsLiteral()
    ensures IsLiteral("/api/user")
  {
    ApiIsLiteral();
    LiteralAppend("/api", "user");
    assert "/api" + "/" + "user" == "/api/user";
  }

  /** The table's paths `/api` and `/api/user` contain no parameter or wildcard. */
  lemma ApiPathsAreLiteral()
    ensures IsLiteral("/api") && IsLiteral("/api/user")
  {
    ApiIsLiteral();
    ApiUserIsLiteral();
  }

  /** A parameter segment does not stand for two segments. */
  lemma ParamRejectsDeeperPath(prefix: string, name: string, a: string, b: string)
    requires IsLiteral(prefix)
    requires name != "" && '/' !in name
    ensures !KeyMatch2(prefix + "/" + a + "/" + b, prefix + "/:" + name)
  {
    var key := prefix + "/" + a + "/" + b;
    ParamMatchesOneSegment(key, prefix, name);
    assert key[|prefix| + 1..][|a|] == '/';
  }

  /** A trailing wildcard covers everything below a literal prefix... */
  lemma WildcardMatchesBelow(prefix: string, rest: string)
    requires IsLiteral(prefix)
    ensures KeyMatch2(prefix + "/" + rest, prefix + "/*")
  {
    var key := prefix + "/" + rest;
    WildcardMatchesExtensions(key, prefix);
    assert key[..|prefix| + 1] == prefix + "/";
  }

  /** ... but not the prefix itself. */
  lemma WildcardRejectsOwnPrefix(prefix: string)
    requires IsLiteral(prefix)
    ensures !KeyMatch2(prefix, prefix + "/*")
  {
    WildcardMatchesExtensions(prefix, prefix);
  }

  /** `prefix/:name` matches `prefix/` followed by any one non-empty segment. */
  lemma ParamMatchesAnySegment(prefix: string, name: string, seg: string)
    requires IsLiteral(prefix)
    requires name != "" && '/' !in name
    requires seg != "" && '/' !in seg
    ensures KeyMatch2(prefix + "/" + seg, prefix + "/:" + name)
  {
    var key := prefix + "/" + seg;
    ParamMatchesOneSegment(key, prefix, name);
    assert key[..|prefix| + 1] == prefix + "/" && key[|prefix| + 1..] == seg;
  }

  /** `:id` stands for the one segment `42`. */
  lemma ParamMatchesSegment()
    ensures KeyMatch2("/api/user/42", "/api/user/:id")
  {
    ApiUserIsLiteral();
    ParamMatchesAnySegment("/api/user", "id", "42");
    assert "/api/user" + "/" + "42" == "/api/user/42";
    assert "/api/user" + "/:" + "id" == "/api/user/:id";
  }

  /** The wildcard pattern of `/api` covers a path one segment below it... */
  lemma WildcardMatchesChild()
    ensures KeyMatch2("/api/user", "/api/*")
  {
    ApiIsLiteral();
    WildcardMatchesBelow("/api", "user");
    assert "/api" + "/" + "user" == "/api/user";
    assert "/api" + "/*" == "/api/*";
  }

  /** ... and paths further below it ... */
  lemma WildcardMatchesDescendant()
    ensures KeyMatch2("/api/user/42", "/api/*")
  {
    ApiIsLiteral();
    WildcardMatchesBelow("/api", "user/42");
    assert "/api" + "/" + "user/42" == "/api/user/42";
    assert "/api" + "/*" == "/api/*";
  }

  /** ... but not `/api` itself. */
  lemma WildcardRejectsPrefix()
    ensures !KeyMatch2("/api", "/api/*")
  {
    ApiIsLiteral();
    WildcardRejectsOwnPrefix("/api");
    assert "/api" + "/*" == "/api/*";
  }
}
