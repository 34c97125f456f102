/**
 * The whitelist of usernames exempt from IP checks. The configuration holds
 * the names as one comma-separated string, split exactly as Python's
 * `str.split(',')` does: empty fields are kept, so an empty configuration
 * yields the one-element list `[""]`.
 */
module Whitelist {
  const Separator: char := ','

  /** Python's `s.split(sep)`: the maximal separator-free fields of `s`, in order. */
  function Split(s: string, sep: char): (parts: seq<string>)
    ensures |parts| >= 1
    ensures forall k :: 0 <= k < |parts| ==> sep !in parts[k]
    decreases |s|
  {
    if |s| == 0 then [""]
    else
      var rest := Split(s[1..], sep);
      if s[0] == sep then [""] + rest
      else [[s[0]] + rest[0]] + rest[1..]
  }

  /** Python's `sep.join(parts)`, the inverse of `Split`. */
  function Join(parts: seq<string>, sep: char): string
  {
    if |parts| == 0 then ""
    else if |parts| == 1 then parts[0]
    else parts[0] + [sep] + Join(parts[1..], sep)
  }

  /** `is_in_whitelist`: exact membership of the name in the split list. */
  predicate IsInWhitelist(whitelist: seq<string>, user: string): (r: bool)
    ensures r <==> exists k :: 0 <= k < |whitelist| && whitelist[k] == user
  {
    user in whitelist
  }

  /** Splitting and joining again gives back the configured string. */
  lemma {:induction false} JoinSplit(s: string, sep: char)
    ensures Join(Split(s, sep), sep) == s
    decreases |s|
  {
    if |s| > 0 {
      var rest := Split(s[1..], sep);
      JoinSplit(s[1..], sep);
      if s[0] == sep {
        calc {
          Join(Split(s, sep), sep);
          "" + [sep] + Join(rest, sep);
          [s[0]] + s[1..];
          s;
        }
      } else if |rest| == 1 {
        calc {
          Join(Split(s, sep), sep);
          [s[0]] + rest[0];
          [s[0]] + s[1..];
          s;
        }
      } else {
        var tail := rest[1..];
        assert Join(rest, sep) == rest[0] + [sep] + Join(tail, sep);
        var parts := [[s[0]] + rest[0]] + tail;
        assert parts[1..] == tail;
        calc {
          Join(parts, sep);
          ([s[0]] + rest[0]) + [sep] + Join(tail, sep);
          [s[0]] + (rest[0] + [sep] + Join(tail, sep));
          [s[0]] + s[1..];
          s;
        }
      }
    }
  }

  /** A field free of separators splits to itself. */
  lemma {:induction false} SplitField(p: string, sep: char)
    requires sep !in p
    ensures Split(p, sep) == [p]
    decreases |p|
  {
    if |p| > 0 {
      SplitField(p[1..], sep);
      assert [p[0]] + p[1..] == p;
    }
  }

  /** A separator-free field followed by a separator splits off as one part. */
  lemma {:induction false} SplitFieldThen(p: string, sep: char, t: string)
    requires sep !in p
    ensures Split(p + [sep] + t, sep) == [p] + Split(t, sep)
    decreases |p|
  {
    var s := p + [sep] + t;
    if |p| == 0 {
      assert s == [sep] + t;
      assert s[1..] == t;
    } else {
      assert s[1..] == p[1..] + [sep] + t;
      SplitFieldThen(p[1..], sep, t);
      assert [p[0]] + p[1..] == p;
    }
  }

  /** Joining separator-free names and splitting again gives back the names. */
  lemma {:induction false} SplitJoin(parts: seq<string>, sep: char)
    requires |parts| >= 1
    requires forall k :: 0 <= k < |parts| ==> sep !in parts[k]
    ensures Split(Join(parts, sep), sep) == parts
    decreases |parts|
  {
    if |parts| == 1 {
      SplitField(parts[0], sep);
    } else {
      SplitJoin(parts[1..], sep);
      SplitFieldThen(parts[0], sep, Join(parts[1..], sep));
      assert [parts[0]] + parts[1..] == parts;
    }
  }

  /**
   * A whitelist configured as the comma-joined list of some comma-free
   * names exempts exactly those names.
   */
  lemma WhitelistOfNames(names: seq<string>, user: string)
    requires |names| >= 1
    requires forall k :: 0 <= k < |names| ==> Separator !in names[k]
    ensures IsInWhitelist(Split(Join(names, Separator), Separator), user) <==> user in names
  {
    SplitJoin(names, Separator);
  }

  /** A username holding a comma can never be whitelisted. */
  lemma CommaNameNeverWhitelisted(config: string, user: string)
    requires Separator in user
    ensures !IsInWhitelist(Split(config, Separator), user)
  {
  }

  /** An empty configuration whitelists exactly the empty username. */
  lemma EmptyConfiguration(user: string)
    ensures Split("", Separator) == [""]
    ensures IsInWhitelist(Split("", Separator), user) <==> user == ""
  {
  }
}
