/** What a list of options does to one field of the packet: it depends on the values of that option alone. */
module CoapFields {
  import opened Bytes
  import opened CoapWire
  import opened CoapMessage

  /** The values of option n, in order. */
  function ValuesOf(opts: seq<Opt>, n: nat): seq<seq<byte>> {
    if opts == [] then []
    else (if opts[0].number == n then [opts[0].value] else []) + ValuesOf(opts[1..], n)
  }

  function FromFirstNonEmpty(parts: seq<seq<byte>>): seq<seq<byte>> {
    if parts != [] && parts[0] == [] then FromFirstNonEmpty(parts[1..]) else parts
  }

  function Join(parts: seq<seq<byte>>, sep: byte): seq<byte> {
    if parts == [] then [] else if |parts| == 1 then parts[0] else parts[0] + [sep] + Join(parts[1..], sep)
  }

  lemma {:induction false} MergeAppends(dst: seq<byte>, parts: seq<seq<byte>>, sep: byte)
    requires dst != []
    ensures MergeAll(dst, parts, sep) == Join([dst] + parts, sep)
    decreases |parts|
  {
    if parts != [] {
      var next := dst + [sep] + parts[0];
      MergeAppends(next, parts[1..], sep);
      assert ([dst] + parts)[1..] == parts;
      assert ([next] + parts[1..])[1..] == parts[1..];
      if |parts| == 1 {
        assert [next] + parts[1..] == [next];
      } else {
        assert next + [sep] + Join(parts[1..], sep) == dst + [sep] + (parts[0] + [sep] + Join(parts[1..], sep));
      }
    } else {
      assert [dst] + parts == [dst];
    }
  }

  lemma {:induction false} MergeIsJoin(parts: seq<seq<byte>>, sep: byte)
    ensures MergeAll([], parts, sep) == Join(FromFirstNonEmpty(parts), sep)
    decreases |parts|
  {
    if parts != [] {
      if parts[0] == [] {
        MergeIsJoin(parts[1..], sep);
      } else {
        MergeAppends(parts[0], parts[1..], sep);
        assert [parts[0]] + parts[1..] == parts;
      }
    }
  }

  lemma OtherField(v: View, number: nat, value: seq<byte>, n: nat)
    requires Apply(v, number, value).Accepted? && number != n
    ensures TextOf(Apply(v, number, value).view, n) == TextOf(v, n)
  {
    ApplyOnlyChanges(v, number, value);
    hide Apply;
    assert Same(v, Apply(v, number, value).view, n);
  }

  lemma {:induction false} FieldAfter(v: View, opts: seq<Opt>, n: nat, sep: byte)
    requires KindOf(n) == Joined(sep) && ApplyAll(v, opts).Accepted?
    ensures TextOf(ApplyAll(v, opts).view, n) == MergeAll(TextOf(v, n), ValuesOf(opts, n), sep)
    decreases |opts|
  {
    hide Apply, KindOf, Merge;
    if opts != [] {
      var w := Apply(v, opts[0].number, opts[0].value).view;
      FieldAfter(w, opts[1..], n, sep);
      var rest := ValuesOf(opts[1..], n);
      if opts[0].number == n {
        JoinedStep(v, n, opts[0].value, sep);
        assert ([opts[0].value] + rest)[1..] == rest;
      } else {
        OtherField(v, opts[0].number, opts[0].value, n);
        assert [] + rest == rest;
      }
    }
  }
}
