/** The functional-options configuration of option.go: a record with two
    string fields, options that overwrite one field each, and the fold that
    applies a list of options to the defaults. */
module Options {
  import opened Common

  /** The `options` record; both fields start out empty. */
  datatype Options = Options(withHost: string, withContentType: string)

  /** An element of the variadic `...Option` list. `Nil` is a nil function
      value. `Failing` stands for an option that returns an error without
      touching the record: the `Option` type allows one, though the
      library's own options never fail. */
  datatype Option =
    | Nil
    | WithHost(host: string)
    | WithContentType(contentType: string)
    | Failing(reason: string)

  function GetDefaultOptions(): (o: Options)
    ensures o.withHost == "" && o.withContentType == ""
  {
    Options("", "")
  }

  /** Runs one non-nil option against the record: the new record and the
      error the option returned, if any. */
  function Apply(opt: Option, opts: Options): (r: (Options, Common.Option<string>))
    requires !opt.Nil?
    ensures opt.WithHost? ==>
      r.0.withHost == opt.host && r.0.withContentType == opts.withContentType && r.1 == None
    ensures opt.WithContentType? ==>
      r.0.withContentType == opt.contentType && r.0.withHost == opts.withHost && r.1 == None
    ensures opt.Failing? ==> r.0 == opts && r.1 == Some(opt.reason)
  {
    match opt
    case WithHost(h) => (opts.(withHost := h), None)
    case WithContentType(t) => (opts.(withContentType := t), None)
    case Failing(e) => (opts, Some(e))
  }

  /** Left-to-right application of `list` to `opts`: nil entries are skipped,
      the first error stops the fold and is returned with the record built so far. */
  function Fold(opts: Options, list: seq<Option>): (Options, Common.Option<string>)
    decreases |list|
  {
    if list == [] then (opts, None)
    else if list[0].Nil? then Fold(opts, list[1..])
    else
      var (next, err) := Apply(list[0], opts);
      if err.Some? then (next, err) else Fold(next, list[1..])
  }

  /** getOpts: start from the defaults and run every non-nil option in turn. */
  method GetOpts(opt: seq<Option>) returns (opts: Options, err: Common.Option<string>)
    ensures (opts, err) == Fold(GetDefaultOptions(), opt)
  {
    opts := GetDefaultOptions();
    var i := 0;
    while i < |opt|
      invariant 0 <= i <= |opt|
      invariant Fold(GetDefaultOptions(), opt) == Fold(opts, opt[i..])
    {
      assert opt[i..][1..] == opt[i + 1..];
      var o := opt[i];
      if o != Nil {
        match o
        case WithHost(h) =>
          opts := opts.(withHost := h);
        case WithContentType(t) =>
          opts := opts.(withContentType := t);
        case Failing(e) =>
          return opts, Some(e);
      }
      i := i + 1;
    }
    return opts, None;
  }

  predicate NoFailure(list: seq<Option>)
  {
    forall k :: 0 <= k < |list| ==> !list[k].Failing?
  }

  lemma NoOptionsGiveDefaults()
    ensures Fold(GetDefaultOptions(), []) == (Options("", ""), None)
  {
  }

  /** A nil entry anywhere in the list has no effect on the outcome. */
  lemma {:induction false} NilIsSkipped(opts: Options, before: seq<Option>, after: seq<Option>)
    ensures Fold(opts, before + [Nil] + after) == Fold(opts, before + after)
    decreases |before|
  {
    if before == [] {
      assert before + [Nil] + after == [Nil] + after;
      assert ([Nil] + after)[1..] == after;
      assert before + after == after;
    } else {
      assert (before + [Nil] + after)[0] == before[0];
      assert (before + [Nil] + after)[1..] == before[1..] + [Nil] + after;
      assert (before + after)[0] == before[0];
      assert (before + after)[1..] == before[1..] + after;
      if before[0].Nil? {
        NilIsSkipped(opts, before[1..], after);
      } else {
        var (next, err) := Apply(before[0], opts);
        if err.None? {
          NilIsSkipped(next, before[1..], after);
        }
      }
    }
  }

  /** The first failing option ends the fold: its error is returned together
      with the record the earlier options built, and later options never run. */
  lemma {:induction false} FirstErrorStops(opts: Options, before: seq<Option>, reason: string, after: seq<Option>)
    requires NoFailure(before)
    ensures Fold(opts, before + [Failing(reason)] + after) == (Fold(opts, before).0, Some(reason))
    decreases |before|
  {
    if before == [] {
      assert before + [Failing(reason)] + after == [Failing(reason)] + after;
    } else {
      assert (before + [Failing(reason)] + after)[0] == before[0];
      assert (before + [Failing(reason)] + after)[1..] == before[1..] + [Failing(reason)] + after;
      assert !before[0].Failing?;
      if before[0].Nil? {
        FirstErrorStops(opts, before[1..], reason, after);
      } else {
        var (next, err) := Apply(before[0], opts);
        FirstErrorStops(next, before[1..], reason, after);
      }
    }
  }

  /** Index k holds the last WithHost of the list. */
  predicate LastHostAt(list: seq<Option>, k: int)
  {
    0 <= k < |list| && list[k].WithHost? &&
    forall k' :: k < k' < |list| ==> !list[k'].WithHost?
  }

  /** Index k holds the last WithContentType of the list. */
  predicate LastContentTypeAt(list: seq<Option>, k: int)
  {
    0 <= k < |list| && list[k].WithContentType? &&
    forall k' :: k < k' < |list| ==> !list[k'].WithContentType?
  }

  /** Without failures, the host is the one of the last WithHost in the list,
      or the starting one when the list has none. */
  lemma {:induction false} LastHostWins(opts: Options, list: seq<Option>)
    requires NoFailure(list)
    ensures forall k :: LastHostAt(list, k) ==> Fold(opts, list).0.withHost == list[k].host
    ensures (forall k :: 0 <= k < |list| ==> !list[k].WithHost?) ==> Fold(opts, list).0.withHost == opts.withHost
    decreases |list|
  {
    if list != [] {
      var rest := list[1..];
      var next := if list[0].Nil? then opts else Apply(list[0], opts).0;
      assert Fold(opts, list) == Fold(next, rest);
      assert NoFailure(rest) by {
        forall k | 0 <= k < |rest| ensures !rest[k].Failing? { assert rest[k] == list[k + 1]; }
      }
      LastHostWins(next, rest);
      forall k | LastHostAt(list, k) ensures Fold(opts, list).0.withHost == list[k].host {
        if k == 0 {
          assert forall k' :: 0 <= k' < |rest| ==> !rest[k'].WithHost? by {
            forall k' | 0 <= k' < |rest| ensures !rest[k'].WithHost? { assert rest[k'] == list[k' + 1]; }
          }
        } else {
          assert LastHostAt(rest, k - 1) by {
            forall k' | k - 1 < k' < |rest| ensures !rest[k'].WithHost? { assert rest[k'] == list[k' + 1]; }
          }
        }
      }
      if forall k :: 0 <= k < |list| ==> !list[k].WithHost? {
        assert !list[0].WithHost?;
        assert forall k' :: 0 <= k' < |rest| ==> !rest[k'].WithHost? by {
          forall k' | 0 <= k' < |rest| ensures !rest[k'].WithHost? { assert rest[k'] == list[k' + 1]; }
        }
      }
    }
  }

  /** Without failures, the content type is the one of the last
      WithContentType in the list, or the starting one when there is none. */
  lemma {:induction false} LastContentTypeWins(opts: Options, list: seq<Option>)
    requires NoFailure(list)
    ensures forall k :: LastContentTypeAt(list, k) ==> Fold(opts, list).0.withContentType == list[k].contentType
    ensures (forall k :: 0 <= k < |list| ==> !list[k].WithContentType?) ==>
      Fold(opts, list).0.withContentType == opts.withContentType
    decreases |list|
  {
    if list != [] {
      var rest := list[1..];
      var next := if list[0].Nil? then opts else Apply(list[0], opts).0;
      assert Fold(opts, list) == Fold(next, rest);
      assert NoFailure(rest) by {
        forall k | 0 <= k < |rest| ensures !rest[k].Failing? { assert rest[k] == list[k + 1]; }
      }
      LastContentTypeWins(next, rest);
      forall k | LastContentTypeAt(list, k) ensures Fold(opts, list).0.withContentType == list[k].contentType {
        if k == 0 {
          assert forall k' :: 0 <= k' < |rest| ==> !rest[k'].WithContentType? by {
            forall k' | 0 <= k' < |rest| ensures !rest[k'].WithContentType? { assert rest[k'] == list[k' + 1]; }
          }
        } else {
          assert LastContentTypeAt(rest, k - 1) by {
            forall k' | k - 1 < k' < |rest| ensures !rest[k'].WithContentType? { assert rest[k'] == list[k' + 1]; }
          }
        }
      }
      if forall k :: 0 <= k < |list| ==> !list[k].WithContentType? {
        assert !list[0].WithContentType?;
        assert forall k' :: 0 <= k' < |rest| ==> !rest[k'].WithContentType? by {
          forall k' | 0 <= k' < |rest| ensures !rest[k'].WithContentType? { assert rest[k'] == list[k' + 1]; }
        }
      }
    }
  }

  /** The fold reports an error exactly when the list holds a failing option. */
  lemma {:induction false} FoldFailsIffFailing(opts: Options, list: seq<Option>)
    ensures Fold(opts, list).1 == None <==> NoFailure(list)
    decreases |list|
  {
    if list != [] {
      var rest := list[1..];
      assert NoFailure(list) <==> !list[0].Failing? && NoFailure(rest) by {
        assert forall k :: 0 <= k < |rest| ==> rest[k] == list[k + 1];
        if !list[0].Failing? && NoFailure(rest) {
          forall k | 0 <= k < |list| ensures !list[k].Failing? {
            if k > 0 { assert list[k] == rest[k - 1]; }
          }
        }
      }
      if list[0].Nil? {
        FoldFailsIffFailing(opts, rest);
      } else if !list[0].Failing? {
        FoldFailsIffFailing(Apply(list[0], opts).0, rest);
      }
    }
  }
}
