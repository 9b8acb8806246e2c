/** The once-per-version table creation gates `maybe_create_contacts_table` and
    `maybe_create_volunteer_table`: a stored version option is compared with the
    code's version and the table is (re)created only when the stored one is older. */
module Schema {
  /** A dotted numeric version such as "1.0.0", as its list of numbers. */
  type Version = seq<nat>

  /** PHP's `version_compare($a, $b, '<')` on numeric versions: the first differing
      part decides, and a version that is a proper prefix of another is the older. */
  predicate VersionLess(a: Version, b: Version)
    decreases |a|
  {
    if b == [] then false
    else if a == [] then true
    else a[0] < b[0] || (a[0] == b[0] && VersionLess(a[1..], b[1..]))
  }

  lemma {:induction false} VersionLessIrreflexive(a: Version)
    ensures !VersionLess(a, a)
    decreases |a|
  {
    if a != [] {
      VersionLessIrreflexive(a[1..]);
    }
  }

  lemma {:induction false} VersionLessAsymmetric(a: Version, b: Version)
    ensures !(VersionLess(a, b) && VersionLess(b, a))
    decreases |a|
  {
    if a != [] && b != [] {
      VersionLessAsymmetric(a[1..], b[1..]);
    }
  }

  /** The `wp_options` rows the gates read; a missing row reads as the default "0". */
  type Options = map<string, Version>

  const DefaultVersion: Version := [0]
  const ContactsVersionKey := "cp_contacts_db_version"
  const ContactsVersion: Version := [1, 0, 0]
  const VolunteerVersionKey := "cp_volunteer_db_version"
  const VolunteerVersion: Version := [2, 0, 0]

  function StoredVersion(opts: Options, key: string): Version {
    if key in opts then opts[key] else DefaultVersion
  }

  datatype Gate = Gate(options: Options, created: bool)

  /** One run of a `maybe_create_*_table` gate for option `key` and code version `current`. */
  function MaybeCreateTable(opts: Options, key: string, current: Version): (g: Gate)
    ensures g.created <==> VersionLess(StoredVersion(opts, key), current)
    ensures g.created ==> g.options == opts[key := current]
    ensures !g.created ==> g.options == opts
  {
    if VersionLess(StoredVersion(opts, key), current) then Gate(opts[key := current], true)
    else Gate(opts, false)
  }

  /** A site that has never recorded a version creates the tables on the first run. */
  lemma FreshSiteCreates(opts: Options)
    requires ContactsVersionKey !in opts && VolunteerVersionKey !in opts
    ensures MaybeCreateTable(opts, ContactsVersionKey, ContactsVersion).created
    ensures MaybeCreateTable(opts, VolunteerVersionKey, VolunteerVersion).created
  {
  }

  /** A second run right after the first creates nothing and changes nothing: the table
      is created at most once per code version. */
  lemma MaybeCreateTableIdempotent(opts: Options, key: string, current: Version)
    ensures var g := MaybeCreateTable(opts, key, current);
      MaybeCreateTable(g.options, key, current) == Gate(g.options, false)
  {
    var g := MaybeCreateTable(opts, key, current);
    if g.created {
      VersionLessIrreflexive(current);
    }
  }

  /** A stored version newer than the code's (a downgrade) never recreates the table. */
  lemma NewerStoredVersionSkips(opts: Options, key: string, current: Version)
    requires VersionLess(current, StoredVersion(opts, key))
    ensures !MaybeCreateTable(opts, key, current).created
  {
    VersionLessAsymmetric(current, StoredVersion(opts, key));
  }
}
