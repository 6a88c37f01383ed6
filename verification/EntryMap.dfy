/**
 Entries of a flat store kept as fields of something else, through any pair of functions. Those
 entries and fields correspond that the two functions take to each other and back.
 */
module EntryMap {
  import opened FlatStore

  datatype Codec<!F> = Codec(field: Entry -> F, entry: F -> Entry)

  /** Every field stands for an entry. */
  ghost predicate WellKept<F(!new)>(c: Codec<F>, fields: map<F, int>) {
    forall g :: g in fields ==> c.field(c.entry(g)) == g
  }

  ghost function TimesOf<F(!new)>(c: Codec<F>, fields: map<F, int>): map<Entry, int> {
    var entries := set g | g in fields :: c.entry(g);
    map e | e in entries && c.field(e) in fields :: fields[c.field(e)]
  }

  /** An entry is there exactly when it can be kept and its field is there, with the same time. */
  lemma EntryAt<F(!new)>(c: Codec<F>, fields: map<F, int>, e: Entry)
    requires WellKept(c, fields)
    ensures e in TimesOf(c, fields) <==> c.entry(c.field(e)) == e && c.field(e) in fields
    ensures e in TimesOf(c, fields) ==> TimesOf(c, fields)[e] == fields[c.field(e)]
  {
  }

  lemma PutField<F(!new)>(c: Codec<F>, fields: map<F, int>, e: Entry, now: int)
    requires WellKept(c, fields) && c.entry(c.field(e)) == e
    ensures var fields' := fields[c.field(e) := now];
            WellKept(c, fields') && TimesOf(c, fields') == TimesOf(c, fields)[e := now]
  {
    var fields' := fields[c.field(e) := now];
    var times := TimesOf(c, fields)[e := now];
    forall x: Entry ensures SameTime(c, fields', times, x) {
      EntryAt(c, fields, x);
      EntryAt(c, fields', x);
    }
    SameTimes(c, fields', times);
  }

  lemma RemoveField<F(!new)>(c: Codec<F>, fields: map<F, int>, e: Entry)
    requires WellKept(c, fields) && c.entry(c.field(e)) == e
    ensures var fields' := fields - {c.field(e)};
            WellKept(c, fields') && TimesOf(c, fields') == TimesOf(c, fields) - {e}
  {
    var fields' := fields - {c.field(e)};
    var times := TimesOf(c, fields) - {e};
    forall x: Entry ensures SameTime(c, fields', times, x) {
      EntryAt(c, fields, x);
      EntryAt(c, fields', x);
    }
    SameTimes(c, fields', times);
  }

  ghost function Later<T(!new)>(times: map<T, int>, cutoff: int): map<T, int> {
    map x | x in times && times[x] > cutoff :: times[x]
  }

  lemma LaterFields<F(!new)>(c: Codec<F>, fields: map<F, int>, cutoff: int)
    requires WellKept(c, fields)
    ensures WellKept(c, Later(fields, cutoff)) && TimesOf(c, Later(fields, cutoff)) == Later(TimesOf(c, fields), cutoff)
  {
    var fields', times := Later(fields, cutoff), Later(TimesOf(c, fields), cutoff);
    forall x: Entry ensures SameTime(c, fields', times, x) {
      EntryAt(c, fields, x);
      EntryAt(c, fields', x);
    }
    SameTimes(c, fields', times);
  }

  ghost predicate SameTime<F(!new)>(c: Codec<F>, fields: map<F, int>, times: map<Entry, int>, e: Entry) {
    (e in TimesOf(c, fields) <==> e in times) && (e in times ==> TimesOf(c, fields)[e] == times[e])
  }

  lemma SameTimes<F(!new)>(c: Codec<F>, fields: map<F, int>, times: map<Entry, int>)
    requires forall e :: SameTime(c, fields, times, e)
    ensures TimesOf(c, fields) == times
  {
    var all := TimesOf(c, fields);
    forall e: Entry ensures (e in all <==> e in times) && (e in times ==> all[e] == times[e]) {
      assert SameTime(c, fields, times, e);
    }
  }
}
