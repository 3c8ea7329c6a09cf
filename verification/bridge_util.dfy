/** Attribute and tag extraction: how the bridge turns a container's metadata
    lines and tag strings into a service's attributes and tags. */
module BridgeUtil {
  import opened Base
  import Strings
  import opened BridgeTypes

  /** The value stored under `key`, or `default` when the key is absent or
      maps to the empty string. */
  function MapDefault(m: map<string, string>, key: string, default: string): (r: string)
    ensures key in m && m[key] != "" ==> r == m[key]
    ensures key !in m || m[key] == "" ==> r == default
    ensures r == "" ==> default == ""
  {
    if key !in m || m[key] == "" then default else m[key]
  }

  /** The tags of all non-empty sources, each split on commas, in source order. */
  function CombineTags(tagParts: seq<string>): (tags: seq<string>)
    ensures forall i :: 0 <= i < |tags| ==> ',' !in tags[i]
    ensures |tags| >= |Strings.NonEmpty(tagParts)|
    ensures tags == [] <==> Strings.NonEmpty(tagParts) == []
  {
    if |tagParts| == 0 then []
    else (if tagParts[0] == "" then [] else Strings.Split(tagParts[0], ',')) + CombineTags(tagParts[1..])
  }

  /** Tags of consecutive groups of sources concatenate. */
  lemma {:induction false} CombineTagsAppend(xs: seq<string>, ys: seq<string>)
    ensures CombineTags(xs + ys) == CombineTags(xs) + CombineTags(ys)
  {
    if |xs| > 0 {
      assert (xs + ys)[0] == xs[0];
      assert (xs + ys)[1..] == xs[1..] + ys;
      CombineTagsAppend(xs[1..], ys);
    } else {
      assert xs + ys == ys;
    }
  }

  /** Joining the tags with commas gives the non-empty sources joined with
      commas: nothing is lost, reordered or invented, and empty pieces inside
      a source survive. */
  lemma {:induction false} CombineTagsJoin(tagParts: seq<string>)
    ensures Strings.Join(CombineTags(tagParts), ',') == Strings.Join(Strings.NonEmpty(tagParts), ',')
  {
    if |tagParts| > 0 {
      var head := tagParts[0];
      var rest := tagParts[1..];
      CombineTagsJoin(rest);
      if head != "" {
        var pieces := Strings.Split(head, ',');
        Strings.JoinSplit(head, ',');
        assert Strings.NonEmpty(tagParts) == [head] + Strings.NonEmpty(rest);
        assert CombineTags(tagParts) == pieces + CombineTags(rest);
        if Strings.NonEmpty(rest) != [] {
          Strings.JoinConcat(pieces, CombineTags(rest), ',');
          Strings.JoinConcat([head], Strings.NonEmpty(rest), ',');
          assert Strings.Join([head], ',') == head;
        } else {
          assert CombineTags(rest) == [];
          assert CombineTags(tagParts) == pieces;
          assert Strings.NonEmpty(tagParts) == [head];
        }
      } else {
        assert CombineTags(tagParts) == CombineTags(rest);
        assert Strings.NonEmpty(tagParts) == Strings.NonEmpty(rest);
      }
    }
  }

  /** An independent description of the result: split the comma-join of the
      non-empty sources. */
  lemma CombineTagsIsSplitOfJoin(tagParts: seq<string>)
    ensures CombineTags(tagParts) ==
      if Strings.NonEmpty(tagParts) == [] then [] else Strings.Split(Strings.Join(Strings.NonEmpty(tagParts), ','), ',')
  {
    var tags := CombineTags(tagParts);
    if tags != [] {
      CombineTagsJoin(tagParts);
      Strings.SplitJoin(tags, ',');
    }
  }

  /** The number of tags each source contributes: one more than its commas,
      or none for an empty source. */
  function TagCount(tagParts: seq<string>): nat
  {
    if |tagParts| == 0 then 0
    else (if tagParts[0] == "" then 0 else Strings.Count(tagParts[0], ',') + 1) + TagCount(tagParts[1..])
  }

  /** The number of tags is the sum over the non-empty sources of their
      commas plus one. */
  lemma {:induction false} CombineTagsLength(tagParts: seq<string>)
    ensures |CombineTags(tagParts)| == TagCount(tagParts)
  {
    if |tagParts| > 0 {
      CombineTagsLength(tagParts[1..]);
    }
  }

  /** Examples: an empty source is dropped, an empty piece inside
      a source is kept, and no sources give no tags. */
  lemma CombineTagsExamples()
    ensures CombineTags(["a,b", "", "c"]) == ["a", "b", "c"]
    ensures CombineTags(["a,,b"]) == ["a", "", "b"]
    ensures CombineTags([]) == []
  {
    Strings.SplitWithoutSeparator("a", ',');
    Strings.SplitWithoutSeparator("b", ',');
    Strings.SplitWithoutSeparator("c", ',');
    Strings.SplitWithoutSeparator("", ',');
    assert "a,b" == "a" + [','] + "b";
    Strings.SplitConcat("a", "b", ',');
    assert ",b" == "" + [','] + "b";
    Strings.SplitConcat("", "b", ',');
    assert "a,,b" == "a" + [','] + ",b";
    Strings.SplitConcat("a", ",b", ',');
    assert ["a,b", "", "c"][1..] == ["", "c"];
    assert ["", "c"][1..] == ["c"];
  }

  const ServicePrefix: string := "SERVICE_"

  /** `v` is everything after the first `=` of `kv`. */
  predicate ValueAfterFirst(kv: string, v: string)
  {
    |v| < |kv| && kv[|kv| - |v| - 1] == '=' && kv[|kv| - |v|..] == v && '=' !in kv[..|kv| - |v| - 1]
  }

  /** What one `KEY=value` metadata line contributes to the attributes for the
      service on `port`: an attribute name and value, or nothing. Only a
      line starting `SERVICE_` with an `=` contributes; its value is all the
      text after the first `=` and its attribute name is lower-case. */
  function MetaAttribute(kv: string, port: string): (r: Option<(string, string)>)
    ensures r.Some? ==> ServicePrefix <= kv && ValueAfterFirst(kv, r.value.1)
    ensures r.Some? ==> Strings.NoUpper(r.value.0)
  {
    var (name, value) := Strings.Cut(kv, '=');
    if ServicePrefix <= name && value.Some? then
      var key := Strings.ToLower(name[|ServicePrefix|..]);
      var r := ScopedAttribute(key, value.value, port);
      if r.Some? then
        SuffixNoUpper(key, r.value.0);
        ValueAfterCut(kv);
        r
      else r
    else None
  }

  /** A suffix of a string without upper-case letters has none either. */
  lemma SuffixNoUpper(s: string, suffix: string)
    requires Strings.NoUpper(s) && |suffix| <= |s| && s[|s| - |suffix|..] == suffix
    ensures Strings.NoUpper(suffix)
  {
    assert forall i :: 0 <= i < |suffix| ==> suffix[i] == s[|s| - |suffix| + i];
  }

  /** Cutting at the first `=` keeps the name as a prefix and gives the text
      after that `=` as the value. */
  lemma ValueAfterCut(kv: string)
    requires Strings.Cut(kv, '=').1.Some?
    ensures Strings.Cut(kv, '=').0 <= kv && ValueAfterFirst(kv, Strings.Cut(kv, '=').1.value)
  {
    var (name, value) := Strings.Cut(kv, '=');
    assert kv == name + ['='] + value.value;
    assert kv[..|name|] == name;
  }

  /** The attribute a lower-cased `SERVICE_` key sets: a key whose segment
      before the first `_` is an integer belongs to that port only and sets
      the rest of the key; any other key sets itself. A key is dropped only
      when it is scoped to a different port. */
  function ScopedAttribute(key: string, value: string, port: string): (r: Option<(string, string)>)
    ensures r.Some? ==> r.value.1 == value
    ensures '_' !in key ==> r == Some((key, value))
    ensures r.Some? && r.value.0 != key ==> Strings.Atoi(port).Some? && key == port + "_" + r.value.0
    ensures r.Some? ==> |r.value.0| <= |key| && key[|key| - |r.value.0|..] == r.value.0
    ensures r.None? ==> '_' in key && Strings.Atoi(Strings.Cut(key, '_').0).Some? && Strings.Cut(key, '_').0 != port
  {
    var (portKey, rest) := Strings.Cut(key, '_');
    if Strings.Atoi(portKey).Some? && rest.Some? then
      if portKey != port then None else Some((rest.value, value))
    else Some((key, value))
  }

  /** A `SERVICE_<key>=<value>` line: the value is everything after the first
      `=` and the key is lower-cased. */
  lemma ServiceLine(key: string, value: string, port: string)
    requires '=' !in key
    ensures MetaAttribute(ServicePrefix + key + "=" + value, port) == ScopedAttribute(Strings.ToLower(key), value, port)
  {
    var name := ServicePrefix + key;
    assert '=' !in name;
    Strings.CutAtFirst(name, value, '=');
    assert ServicePrefix + key + "=" + value == name + ['='] + value;
    assert name[|ServicePrefix|..] == key;
  }

  /** Line `kv` sets attribute `key` for the service on `port`. */
  predicate SetsAttribute(kv: string, port: string, key: string)
  {
    Sets(MetaAttribute(kv, port), key)
  }

  predicate Sets(binding: Option<(string, string)>, key: string)
  {
    binding.Some? && binding.value.0 == key
  }

  /** The bindings applied in order to an empty map, a later one overwriting
      an earlier one with the same key. */
  function Assign(bindings: seq<Option<(string, string)>>): map<string, string>
    decreases |bindings|
  {
    if |bindings| == 0 then map[]
    else
      var earlier := Assign(bindings[..|bindings| - 1]);
      match bindings[|bindings| - 1]
      case None => earlier
      case Some((key, value)) => earlier[key := value]
  }

  /** The contribution of each metadata line, in order. */
  function Contributions(meta: seq<string>, port: string): (bindings: seq<Option<(string, string)>>)
    ensures |bindings| == |meta|
    ensures forall i :: 0 <= i < |meta| ==> bindings[i] == MetaAttribute(meta[i], port)
  {
    seq(|meta|, i requires 0 <= i < |meta| => MetaAttribute(meta[i], port))
  }

  /** The attributes the metadata lines give the service on `port`: the lines
      are applied in order, a later line overwriting an earlier one. */
  function ServiceMetaData(meta: seq<string>, port: string): (attrs: map<string, string>)
    ensures forall key :: key in attrs <==> exists i :: 0 <= i < |meta| && SetsAttribute(meta[i], port, key)
    ensures forall key :: key in attrs ==> exists i :: 0 <= i < |meta| && MetaAttribute(meta[i], port) == Some((key, attrs[key]))
  {
    var bindings := Contributions(meta, port);
    var attrs := Assign(bindings);
    assert forall key :: key in attrs <==> exists i :: 0 <= i < |meta| && SetsAttribute(meta[i], port, key) by {
      forall key
        ensures key in attrs <==> exists i :: 0 <= i < |meta| && SetsAttribute(meta[i], port, key)
      {
        AssignKeys(bindings, key);
        assert forall i :: 0 <= i < |meta| ==> (Sets(bindings[i], key) <==> SetsAttribute(meta[i], port, key));
      }
    }
    assert forall key :: key in attrs ==> exists i :: 0 <= i < |meta| && MetaAttribute(meta[i], port) == Some((key, attrs[key])) by {
      forall key | key in attrs
        ensures exists i :: 0 <= i < |meta| && MetaAttribute(meta[i], port) == Some((key, attrs[key]))
      {
        var i := AssignLastWins(bindings, key);
        assert MetaAttribute(meta[i], port) == Some((key, attrs[key]));
      }
    }
    attrs
  }

  /** A key is assigned exactly when some binding sets it. */
  lemma {:induction false} AssignKeys(bindings: seq<Option<(string, string)>>, key: string)
    ensures key in Assign(bindings) <==> exists i :: 0 <= i < |bindings| && Sets(bindings[i], key)
    decreases |bindings|
  {
    if |bindings| > 0 {
      var init := bindings[..|bindings| - 1];
      AssignKeys(init, key);
      assert forall i :: 0 <= i < |init| ==> init[i] == bindings[i];
      if exists i :: 0 <= i < |bindings| && Sets(bindings[i], key) {
        var i :| 0 <= i < |bindings| && Sets(bindings[i], key);
        if i < |init| {
          assert Sets(init[i], key);
        }
      }
    }
  }

  /** Last binding wins: an assigned key carries the value of a binding that
      sets it, and no later binding sets it again. */
  lemma {:induction false} AssignLastWins(bindings: seq<Option<(string, string)>>, key: string) returns (i: nat)
    requires key in Assign(bindings)
    ensures i < |bindings| && bindings[i] == Some((key, Assign(bindings)[key]))
    ensures forall j :: i < j < |bindings| ==> !Sets(bindings[j], key)
    decreases |bindings|
  {
    var last := |bindings| - 1;
    var init := bindings[..last];
    if Sets(bindings[last], key) {
      i := last;
    } else {
      i := AssignLastWins(init, key);
      assert init[i] == bindings[i];
      assert forall j :: i < j < |init| ==> init[j] == bindings[j];
    }
  }

  /** An attribute is present exactly when some metadata line sets it. */
  lemma ServiceMetaDataKeys(meta: seq<string>, port: string, key: string)
    ensures key in ServiceMetaData(meta, port) <==> exists i :: 0 <= i < |meta| && SetsAttribute(meta[i], port, key)
  {
    var bindings := Contributions(meta, port);
    AssignKeys(bindings, key);
    assert forall i :: 0 <= i < |meta| ==> (Sets(bindings[i], key) <==> SetsAttribute(meta[i], port, key));
  }

  /** Later lines overwrite earlier ones: a present attribute carries the
      value of line `i`, and no line after `i` sets that attribute. */
  lemma ServiceMetaDataLastWins(meta: seq<string>, port: string, key: string) returns (i: nat)
    requires key in ServiceMetaData(meta, port)
    ensures i < |meta| && MetaAttribute(meta[i], port) == Some((key, ServiceMetaData(meta, port)[key]))
    ensures forall j :: i < j < |meta| ==> !SetsAttribute(meta[j], port, key)
  {
    var bindings := Contributions(meta, port);
    i := AssignLastWins(bindings, key);
    assert forall j :: i < j < |meta| ==> (Sets(bindings[j], key) <==> SetsAttribute(meta[j], port, key));
  }

  /** A line that has no `=`, or whose name does not start with `SERVICE_`
      (case matters), contributes nothing. */
  lemma NotServiceLine(kv: string, port: string)
    requires '=' !in kv || !(ServicePrefix <= Strings.Cut(kv, '=').0)
    ensures MetaAttribute(kv, port) == None
  {
  }

  /** `strconv.Atoi` accepts a string exactly when it accepts its lower-case
      form, with the same value: signs and digits have no case. */
  lemma AtoiIgnoresCase(s: string)
    ensures Strings.Atoi(Strings.ToLower(s)) == Strings.Atoi(s)
    ensures Strings.Atoi(s).Some? ==> Strings.ToLower(s) == s
  {
    var low := Strings.ToLower(s);
    if Strings.Atoi(s).Some? || Strings.Atoi(low).Some? {
      assert forall i :: 0 <= i < |s| ==> low[i] == s[i];
      assert low == s;
    }
  }

  /** `SERVICE_<p>_<attr>=<value>` with an integer `p` is scoped to port `p`:
      it sets the lower-cased `attr` for that port and nothing for any other. */
  lemma PortScopedLine(p: string, attr: string, value: string, port: string)
    requires '=' !in p && '=' !in attr && '_' !in p
    requires Strings.Atoi(p).Some?
    ensures MetaAttribute(ServicePrefix + p + "_" + attr + "=" + value, port) ==
      if p == port then Some((Strings.ToLower(attr), value)) else None
  {
    var key := p + "_" + attr;
    assert ServicePrefix + p + "_" + attr + "=" + value == ServicePrefix + key + "=" + value;
    ServiceLine(key, value, port);
    LowerScopedKey(p, attr);
    ScopedKey(p, Strings.ToLower(attr), value, port);
  }

  /** Lower-casing `<p>_<attr>` with an integer `p` lower-cases only `attr`. */
  lemma LowerScopedKey(p: string, attr: string)
    requires Strings.Atoi(p).Some?
    ensures Strings.ToLower(p + "_" + attr) == p + ['_'] + Strings.ToLower(attr)
  {
    Strings.ToLowerConcat(p + "_", attr);
    Strings.ToLowerConcat(p, "_");
    AtoiIgnoresCase(p);
  }

  /** A lower-cased key `<p>_<rest>` with an integer `p` sets `rest` for
      port `p` and nothing for any other port. */
  lemma ScopedKey(p: string, rest: string, value: string, port: string)
    requires '_' !in p && Strings.Atoi(p).Some?
    ensures ScopedAttribute(p + ['_'] + rest, value, port) == if p == port then Some((rest, value)) else None
  {
    Strings.CutAtFirst(p, rest, '_');
  }

  /** `SERVICE_<key>=<value>` whose key has no integer segment before an
      underscore is a global entry, stored under the whole lower-cased key. */
  lemma GlobalLine(key: string, value: string, port: string)
    requires '=' !in key
    requires '_' !in key || Strings.Atoi(Strings.Cut(key, '_').0).None?
    ensures MetaAttribute(ServicePrefix + key + "=" + value, port) == Some((Strings.ToLower(key), value))
  {
    ServiceLine(key, value, port);
    Strings.CutToLower(key, '_');
    AtoiIgnoresCase(Strings.Cut(key, '_').0);
  }

  // Literal-text equality, kept apart so the examples below stay cheap to verify.
  lemma LowerName()
    ensures Strings.ToLower("NAME") == "name"
  {
  }

  // Literal-text equality, kept apart so the examples below stay cheap to verify.
  lemma NameFooText()
    ensures ServicePrefix + "NAME" + "=" + "foo" == ServicePrefix + "NAME=foo"
  {
  }

  /** Example: `SERVICE_NAME=foo` sets `name` on every port. */
  lemma NameLine(port: string)
    ensures MetaAttribute(ServicePrefix + "NAME=foo", port) == Some(("name", "foo"))
  {
    NameFooText();
    GlobalLine("NAME", "foo", port);
    LowerName();
  }

  // Literal-text equality, kept apart so the examples below stay cheap to verify.
  lemma PortNameWebText()
    ensures ServicePrefix + "80" + "_" + "NAME" + "=" + "web" == ServicePrefix + "80_NAME=web"
  {
  }

  /** Example: `SERVICE_80_NAME=web` sets `name` on port 80 only. */
  lemma PortNameLine(port: string)
    ensures MetaAttribute(ServicePrefix + "80_NAME=web", port) == if port == "80" then Some(("name", "web")) else None
  {
    assert Strings.AllDigits("80");
    PortNameWebText();
    PortScopedLine("80", "NAME", "web", port);
    LowerName();
  }

  /** The attributes from two lines are those lines' bindings applied in
      order. */
  lemma TwoLines(first: string, second: string, port: string)
    ensures ServiceMetaData([first, second], port) == Assign([MetaAttribute(first, port), MetaAttribute(second, port)])
  {
    assert Contributions([first, second], port) == [MetaAttribute(first, port), MetaAttribute(second, port)];
  }

  /** Example: `SERVICE_NAME=foo` then `SERVICE_80_NAME=web`. For port 80
      the scoped line wins by position. */
  lemma ServiceMetaDataOnScopedPort()
    ensures ServiceMetaData([ServicePrefix + "NAME=foo", ServicePrefix + "80_NAME=web"], "80") == map["name" := "web"]
  {
    TwoLines(ServicePrefix + "NAME=foo", ServicePrefix + "80_NAME=web", "80");
    NameLine("80");
    PortNameLine("80");
    AssignPair(("name", "foo"), Some(("name", "web")));
  }

  /** The same lines on port 81: the scoped line is skipped and the global
      line survives. */
  lemma ServiceMetaDataOnOtherPort()
    ensures ServiceMetaData([ServicePrefix + "NAME=foo", ServicePrefix + "80_NAME=web"], "81") == map["name" := "foo"]
  {
    TwoLines(ServicePrefix + "NAME=foo", ServicePrefix + "80_NAME=web", "81");
    NameLine("81");
    PortNameLine("81");
    AssignPair(("name", "foo"), None);
  }

  /** Two bindings, the first one setting a key. */
  lemma AssignPair(first: (string, string), second: Option<(string, string)>)
    ensures Assign([Some(first), second]) ==
      if second.Some? then map[first.0 := first.1][second.value.0 := second.value.1] else map[first.0 := first.1]
  {
    var bindings := [Some(first), second];
    assert bindings[..1] == [Some(first)];
    assert [Some(first)][..0] == [];
    assert Assign([Some(first)]) == map[first.0 := first.1];
    assert bindings[|bindings| - 1] == second;
  }

  /** A key that is only an integer, such as `SERVICE_80=x`, has no second
      segment, so it is not port-scoped: it is stored globally under the
      digits themselves. */
  lemma BareIntegerKeyIsGlobal(digits: string, value: string, port: string)
    requires Strings.AllDigits(digits)
    ensures MetaAttribute(ServicePrefix + digits + "=" + value, port) == Some((digits, value))
  {
    assert '_' !in digits && '=' !in digits by {
      forall i | 0 <= i < |digits| ensures digits[i] != '_' && digits[i] != '=' {
        assert Strings.IsDigit(digits[i]);
      }
    }
    GlobalLine(digits, value, port);
    Strings.ToLowerFixesDigits(digits);
  }

  /** One published binding of an exposed port. */
  datatype PortBinding = PortBinding(hostIp: string, hostPort: string)

  /** The service port of an exposed port (its number and protocol, as the
      container runtime reports them) and its published bindings: host
      address and port come from the first binding, and are empty when the
      port is not published. */
  function ServicePortOf(exposedPort: string, portType: string, published: seq<PortBinding>): (p: ServicePort)
    ensures p.exposedPort == exposedPort && p.portType == portType
    ensures published == [] ==> p.hostIp == "" && p.hostPort == ""
    ensures published != [] ==> p.hostIp == published[0].hostIp && p.hostPort == published[0].hostPort
  {
    var unpublished := ServicePort("", "", exposedPort, portType);
    if |published| > 0 then unpublished.(hostIp := published[0].hostIp, hostPort := published[0].hostPort)
    else unpublished
  }

  /** Only the first binding matters: any later bindings can change without
      changing the service port. */
  lemma ServicePortFirstBinding(exposedPort: string, portType: string, first: PortBinding, later: seq<PortBinding>)
    ensures ServicePortOf(exposedPort, portType, [first] + later) == ServicePortOf(exposedPort, portType, [first])
  {
  }
}
