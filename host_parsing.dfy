/**
  Turning the text of the host input field into the list of hosts to
  probe (`start_ping`, Projeto_Ping.py line 103): split on commas, strip
  each field, drop the fields that strip to nothing.
 */
module HostParsing {
  import opened Text

  const Separator: char := ','

  /** What a parsed host looks like: non-empty, no surrounding whitespace,
      no comma. */
  predicate IsHost(h: string) {
    h != [] && IsStripped(h) && Separator !in h
  }

  /** The list comprehension's filter and map over the split fields. */
  function NonBlankStripped(fields: seq<string>): (hosts: seq<string>)
    ensures |hosts| <= |fields|
  {
    if fields == [] then []
    else
      var h := Strip(fields[0]);
      (if h == [] then [] else [h]) + NonBlankStripped(fields[1..])
  }

  /** Every field kept is a host: stripped, non-empty, and comma-free
      because its field was. */
  lemma {:induction false} NonBlankStrippedHosts(fields: seq<string>)
    requires forall k :: 0 <= k < |fields| ==> Separator !in fields[k]
    ensures forall k :: 0 <= k < |NonBlankStripped(fields)| ==> IsHost(NonBlankStripped(fields)[k])
  {
    if fields != [] {
      var h := Strip(fields[0]);
      StripKeepsAbsent(fields[0], Separator);
      NonBlankStrippedHosts(fields[1..]);
      var head := if h == [] then [] else [h];
      assert NonBlankStripped(fields) == head + NonBlankStripped(fields[1..]);
    }
  }

  /** `[h.strip() for h in text.split(",") if h.strip()]`. */
  function ParseHosts(text: string): (hosts: seq<string>)
    ensures forall k :: 0 <= k < |hosts| ==> IsHost(hosts[k])
  {
    SplitSpec(text, Separator);
    NonBlankStrippedHosts(Split(text, Separator));
    NonBlankStripped(Split(text, Separator))
  }

  lemma {:induction false} NonBlankStrippedAppend(x: seq<string>, y: seq<string>)
    requires forall k :: 0 <= k < |x| ==> Separator !in x[k]
    requires forall k :: 0 <= k < |y| ==> Separator !in y[k]
    ensures NonBlankStripped(x + y) == NonBlankStripped(x) + NonBlankStripped(y)
  {
    if x == [] {
      assert x + y == y;
    } else {
      var xy := x + y;
      assert xy[0] == x[0] && xy[1..] == x[1..] + y;
      var h := Strip(x[0]);
      var head := if h == [] then [] else [h];
      assert NonBlankStripped(xy) == head + NonBlankStripped(xy[1..]);
      assert NonBlankStripped(x) == head + NonBlankStripped(x[1..]);
      NonBlankStrippedAppend(x[1..], y);
      AppendAssociative(head, NonBlankStripped(x[1..]), NonBlankStripped(y));
    }
  }

  /** Parsing keeps the input order: the hosts of the text before a comma
      come first, then those of the text after it. */
  lemma ParseHostsAround(a: string, b: string)
    ensures ParseHosts(a + [Separator] + b) == ParseHosts(a) + ParseHosts(b)
  {
    SplitAround(a, b, Separator);
    SplitSpec(a, Separator);
    SplitSpec(b, Separator);
    NonBlankStrippedAppend(Split(a, Separator), Split(b, Separator));
  }

  /** A single comma-free field yields its stripped text, or nothing when
      it is blank. */
  lemma ParseHostsField(s: string)
    requires Separator !in s
    ensures ParseHosts(s) == if Strip(s) == [] then [] else [Strip(s)]
  {
    SplitNoSeparator(s, Separator);
    NonBlankStrippedSingle(s);
  }

  lemma NonBlankStrippedSingle(field: string)
    requires Separator !in field
    ensures NonBlankStripped([field]) == if Strip(field) == [] then [] else [Strip(field)]
  {
    assert [field][1..] == [];
  }

  /** The text holds nothing but commas and whitespace. */
  predicate OnlySeparatorsAndSpace(text: string) {
    forall k :: 0 <= k < |text| ==> text[k] == Separator || IsSpace(text[k])
  }

  lemma OnlySeparatorsAndSpaceAround(a: string, b: string)
    requires Separator !in a
    ensures OnlySeparatorsAndSpace(a + [Separator] + b) <==> AllSpace(a) && OnlySeparatorsAndSpace(b)
  {
    var text := a + [Separator] + b;
    if OnlySeparatorsAndSpace(text) {
      forall k | 0 <= k < |a| ensures IsSpace(a[k]) {
        assert text[k] == a[k];
      }
      forall k | 0 <= k < |b| ensures b[k] == Separator || IsSpace(b[k]) {
        assert text[|a| + 1 + k] == b[k];
      }
    }
  }

  /** No host is found exactly when the text holds nothing but commas and
      whitespace. */
  lemma {:induction false} ParseHostsEmptyIff(text: string)
    ensures ParseHosts(text) == [] <==> OnlySeparatorsAndSpace(text)
    decreases |text|
  {
    if Separator in text {
      var i :| 0 <= i < |text| && text[i] == Separator && Separator !in text[..i] by {
        var i0 :| 0 <= i0 < |text| && text[i0] == Separator;
        FirstSeparator(text, i0);
      }
      var a, b := text[..i], text[i + 1..];
      assert text == a + [Separator] + b;
      ParseHostsAround(a, b);
      ParseHostsField(a);
      StripEmptyIff(a);
      ParseHostsEmptyIff(b);
      OnlySeparatorsAndSpaceAround(a, b);
    } else {
      ParseHostsField(text);
      StripEmptyIff(text);
    }
  }

  lemma {:induction false} FirstSeparator(text: string, j: nat)
    requires j < |text| && text[j] == Separator
    ensures exists i :: 0 <= i < |text| && text[i] == Separator && Separator !in text[..i]
    decreases j
  {
    if Separator in text[..j] {
      var j' :| 0 <= j' < j && text[..j][j'] == Separator;
      FirstSeparator(text, j');
    } else {
      assert text[j] == Separator && Separator !in text[..j];
    }
  }

  /** The input `"   ,  ,"` yields no host. */
  lemma BlankFieldsExample(text: string)
    requires text == "   ,  ,"
    ensures ParseHosts(text) == []
  {
    ParseHostsEmptyIff(text);
  }
}
