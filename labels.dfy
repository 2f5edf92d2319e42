/** Label derivation for the timezone catalog: a zone identifier such as
    "America/New_York" is shown to users as "New York", the text after its
    last '/' with every '_' turned into a space. */
module Labels {

  /** Python's `s.rpartition(sep)` for a one-character separator: the text
      before the last `sep`, the separator itself, and the text after it;
      ("", "", s) when `s` holds no `sep`. */
  function RPartition(s: string, sep: char): (parts: (string, string, string))
    ensures parts.0 + parts.1 + parts.2 == s
    ensures sep !in parts.2
    ensures parts.1 == [sep] || (parts.1 == [] && parts.0 == [])
    ensures parts.1 == [] <==> sep !in s
  {
    if s == [] then ([], [], [])
    else if s[|s| - 1] == sep then (s[..|s| - 1], [sep], [])
    else
      var front := RPartition(s[..|s| - 1], sep);
      assert s == s[..|s| - 1] + [s[|s| - 1]];
      (front.0, front.1, front.2 + [s[|s| - 1]])
  }

  /** The `name` part of `zone.rpartition('/')`. */
  function LastSegment(zone: string): (name: string)
    ensures |name| <= |zone| && zone[|zone| - |name|..] == name
    ensures '/' !in name
    ensures |name| < |zone| ==> zone[|zone| - |name| - 1] == '/'
  {
    var parts := RPartition(zone, '/');
    assert zone == parts.0 + parts.1 + parts.2;
    assert zone[|zone| - |parts.2|..] == parts.2;
    parts.2
  }

  /** The three properties of LastSegment determine it: a suffix free of '/'
      that is either the whole identifier or preceded by a '/' is the text
      after the last '/'. */
  lemma LastSegmentUnique(zone: string, name: string)
    requires |name| <= |zone| && zone[|zone| - |name|..] == name
    requires '/' !in name
    requires |name| < |zone| ==> zone[|zone| - |name| - 1] == '/'
    ensures name == LastSegment(zone)
  {
  }

  /** Python's `name.replace('_', ' ')`. */
  function ReplaceUnderscores(name: string): (r: string)
    ensures |r| == |name|
    ensures forall i :: 0 <= i < |name| ==> r[i] == (if name[i] == '_' then ' ' else name[i])
    ensures '_' !in r
  {
    if name == [] then []
    else [if name[0] == '_' then ' ' else name[0]] + ReplaceUnderscores(name[1..])
  }

  /** Replacing twice changes nothing more than replacing once. */
  lemma ReplaceUnderscoresIdempotent(name: string)
    ensures ReplaceUnderscores(ReplaceUnderscores(name)) == ReplaceUnderscores(name)
  {
    var once := ReplaceUnderscores(name);
    var twice := ReplaceUnderscores(once);
    assert forall i :: 0 <= i < |once| ==> twice[i] == once[i];
  }

  /** A name without '_' is left as it is. */
  lemma ReplaceUnderscoresUnchanged(name: string)
    requires '_' !in name
    ensures ReplaceUnderscores(name) == name
  {
    var r := ReplaceUnderscores(name);
    assert forall i :: 0 <= i < |name| ==> r[i] == name[i] by {
      forall i | 0 <= i < |name| ensures r[i] == name[i] {
        assert name[i] in name;
      }
    }
  }

  /** The user-facing label of a zone identifier. */
  function Label(zone: string): (shown: string)
    ensures '_' !in shown && '/' !in shown
    ensures |shown| <= |zone|
  {
    var name := LastSegment(zone);
    var replaced := ReplaceUnderscores(name);
    assert forall i :: 0 <= i < |replaced| ==> replaced[i] != '/' by {
      forall i | 0 <= i < |replaced| ensures replaced[i] != '/' {
        assert name[i] in name;
      }
    }
    replaced
  }

  /** A zone identifier without '/' or '_' is its own label; otherwise the
      label differs from the identifier. */
  lemma LabelIsIdentityIff(zone: string)
    ensures Label(zone) == zone <==> '/' !in zone && '_' !in zone
  {
    if '/' !in zone && '_' !in zone {
      var name := LastSegment(zone);
      assert name == zone;
      var replaced := ReplaceUnderscores(name);
      assert forall i :: 0 <= i < |zone| ==> replaced[i] == zone[i] by {
        forall i | 0 <= i < |zone| ensures replaced[i] == zone[i] {
          assert zone[i] in zone;
        }
      }
    }
  }
}
