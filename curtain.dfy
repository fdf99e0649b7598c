/** The decision core of the Curtain maintenance-mode plugin: its default
    settings, the maintenance gate, the settings sanitizer, and the two pieces
    of host state it reads and writes — the stored `curtain` option and the
    set of roles holding the `manage_curtain` capability. */
module Curtain {
  import opened PhpValues
  import opened OptionsRecord
  import Contrast
  import QueryArgs

  type Role = string

  const Administrator: Role := "administrator"
  const Editor: Role := "editor"
  const LoginPage := "wp-login.php"
  const ModeField := "mode"
  const RolesField := "roles"
  const DefaultHeading := "Maintenance"
  /** The stock description: its text with `&#8212;` (an em dash) put in for
      the `%s`; written in pieces only to keep each literal short. */
  const DefaultDescription :=
    "Please excuse the inconveniences, " + "this site is currently " + "in maintenance work. " +
    "&#8212;" + " Check back soon!"

  // ---------------------------------------------------------------------
  // Defaults

  /** `defaults( $options )`: mode off, the theme's background colour (white
      when the theme has none), the stock heading and description; with
      `withoutMode` the leading `mode` entry is shifted off. */
  function Defaults(themeColor: string, withoutMode: bool): (d: Record) {
    var all := [Entry(ModeField, Int(0)),
                Entry("background", Text("#" + (if StringTruthy(themeColor) then themeColor else "ffffff"))),
                Entry("heading", Text(DefaultHeading)),
                Entry("description", Text(DefaultDescription))];
    if withoutMode then all[1..] else all
  }

  /** `caps()` without an argument: the roles that get the capability on
      activation, in this order. */
  function ManagerRoles(): (roles: seq<Role>) {
    [Administrator, Editor]
  }

  lemma DefaultsShape(themeColor: string)
    ensures Keys(Defaults(themeColor, false)) == [ModeField, "background", "heading", "description"]
    ensures Distinct(Keys(Defaults(themeColor, false)))
    ensures Shift(Defaults(themeColor, false)) == Defaults(themeColor, true)
    ensures Lookup(Defaults(themeColor, false), ModeField) == Int(0)
  {
    assert Keys(Defaults(themeColor, false))[0] == ModeField;
  }

  /** Without a theme colour the default background is white, and the notice
      text on it is black. */
  lemma DefaultBackgroundWithoutThemeColor(themeColor: string)
    requires !StringTruthy(themeColor)
    ensures Lookup(Defaults(themeColor, false), "background") == Text("#ffffff")
    ensures Lookup(Defaults(themeColor, true), "background") == Text("#ffffff")
    ensures Contrast.NoticeTextColor("#ffffff") == Contrast.Black
  {
    assert "#" + "ffffff" == "#ffffff";
    Contrast.NoticeTextColorOfHash("ffffff");
    Contrast.WhiteBackgroundBlackText();
  }

  // ---------------------------------------------------------------------
  // The maintenance gate

  datatype Response =
    | Proceed               // the request is served normally
    | Unavailable(status: int)  // status line sent, notice page shown, processing stops

  /** The test at the top of `init`: pass the request on when the curtain is
      down, the visitor is logged in, or the page is the login page; otherwise
      answer 503 with the notice. */
  function Gate(mode: Value, loggedIn: bool, page: string): (r: Response)
    ensures r == Proceed <==> !Truthy(mode) || loggedIn || page == LoginPage
    ensures r.Unavailable? ==> r.status == 503
  {
    if !Truthy(mode) || loggedIn || page == LoginPage then Proceed else Unavailable(503)
  }

  /** After the toggle stores `intval( $curtain )`, an anonymous visitor away
      from the login page is turned away exactly when that integer is not 0;
      everyone else is served. */
  lemma GateAfterToggle(r: Record, curtain: string, loggedIn: bool, page: string)
    ensures Gate(Lookup(Put(r, ModeField, Int(IntVal(curtain))), ModeField), loggedIn, page) ==
              if IntVal(curtain) != 0 && !loggedIn && page != LoginPage then Unavailable(503) else Proceed
  {
    PutLookup(r, ModeField, Int(IntVal(curtain)), ModeField);
  }

  /** A reset keeps the stored mode, so every request gets the same answer
      from the gate as before it. */
  lemma GateAfterReset(themeColor: string, mode: Value, loggedIn: bool, page: string)
    ensures Gate(Lookup(Put(Defaults(themeColor, false), ModeField, mode), ModeField), loggedIn, page) ==
              Gate(mode, loggedIn, page)
  {
    PutLookup(Defaults(themeColor, false), ModeField, mode, ModeField);
  }

  // ---------------------------------------------------------------------
  // The settings sanitizer, as functions of the submission

  /** A submitted value as it is stored: numeric strings become integers,
      anything else is kept as it came. */
  function Coerce(v: Value): (stored: Value) {
    match v
    case Text(s) => if IsNumeric(s) then Int(IntVal(s)) else v
    case _ => v
  }

  lemma CoerceDecimal(n: int)
    ensures Coerce(Text(IntToDecimal(n))) == Int(n)
  {
    IntValOfDecimal(n);
  }

  /** One iteration of the sanitizer's loop on the record. */
  function SanitizeStep(acc: Record, e: Entry): (next: Record) {
    if e.key == RolesField then acc else Put(acc, e.key, Coerce(e.value))
  }

  /** The record `sanitize` returns: the submission merged over the stored
      record, entry by entry, in submission order. */
  function Merge(stored: Record, sub: seq<Entry>): (merged: Record)
    decreases |sub|
  {
    if sub == [] then stored else Merge(SanitizeStep(stored, sub[0]), sub[1..])
  }

  /** The roles a submitted `roles` value grants: each listed role, or none
      when the value is not a list (PHP's `foreach` skips it). */
  function Granted(v: Value): (roles: set<Role>) {
    if v.List? then set r | r in v.items else {}
  }

  function TableRoles(table: seq<Role>): (roles: set<Role>) {
    set r | r in table
  }

  /** One iteration of the sanitizer's loop on the capability holders:
      `roles` revokes from every role in the table, then grants to the list. */
  function RolesStep(holders: set<Role>, table: seq<Role>, e: Entry): (next: set<Role>) {
    if e.key == RolesField then (holders - TableRoles(table)) + Granted(e.value) else holders
  }

  /** The capability holders after `sanitize`. */
  function HoldersAfter(holders: set<Role>, table: seq<Role>, sub: seq<Entry>): (after: set<Role>)
    decreases |sub|
  {
    if sub == [] then holders else HoldersAfter(RolesStep(holders, table, sub[0]), table, sub[1..])
  }

  /** One step of the sanitizer's loop, as the two functions see it. */
  lemma SanitizeUnfold(record: Record, holders: set<Role>, table: seq<Role>, sub: seq<Entry>, i: nat)
    requires i < |sub|
    ensures Merge(record, sub[i..]) == Merge(SanitizeStep(record, sub[i]), sub[i + 1..])
    ensures HoldersAfter(holders, table, sub[i..]) == HoldersAfter(RolesStep(holders, table, sub[i]), table, sub[i + 1..])
  {
    assert sub[i..][0] == sub[i] && sub[i..][1..] == sub[i + 1..];
  }

  /** Every role a submission grants exists in the role table (`get_role`
      would return null for any other and the grant would fail). */
  predicate RolesKnown(sub: seq<Entry>, table: seq<Role>) {
    forall j :: 0 <= j < |sub| && sub[j].key == RolesField ==> Granted(sub[j].value) <= TableRoles(table)
  }

  lemma KeysTail(sub: seq<Entry>)
    requires sub != []
    ensures Keys(sub) == [sub[0].key] + Keys(sub[1..])
    ensures Distinct(Keys(sub)) ==> Distinct(Keys(sub[1..])) && sub[0].key !in Keys(sub[1..])
  {
    if Distinct(Keys(sub)) {
      forall k | k in Keys(sub[1..]) ensures k != sub[0].key {
        var i :| 0 <= i < |sub| - 1 && Keys(sub[1..])[i] == k;
        assert Keys(sub)[i + 1] == k;
      }
    }
  }

  /** A field that is not submitted, and the `roles` field, keep their stored
      value. */
  lemma {:induction false} MergeUntouched(stored: Record, sub: seq<Entry>, k: string)
    requires k !in Keys(sub) || k == RolesField
    ensures Lookup(Merge(stored, sub), k) == Lookup(stored, k)
    decreases |sub|
  {
    if sub != [] {
      KeysTail(sub);
      if sub[0].key != RolesField {
        PutLookup(stored, sub[0].key, Coerce(sub[0].value), k);
      }
      MergeUntouched(SanitizeStep(stored, sub[0]), sub[1..], k);
    }
  }

  /** Every submitted field other than `roles` is stored with its coerced
      value, whatever was stored before. */
  lemma {:induction false} MergeSubmitted(stored: Record, sub: seq<Entry>, j: nat)
    requires Distinct(Keys(sub)) && j < |sub| && sub[j].key != RolesField
    ensures Lookup(Merge(stored, sub), sub[j].key) == Coerce(sub[j].value)
    decreases j
  {
    KeysTail(sub);
    if j == 0 {
      MergeUntouched(SanitizeStep(stored, sub[0]), sub[1..], sub[0].key);
      PutLookup(stored, sub[0].key, Coerce(sub[0].value), sub[0].key);
    } else {
      assert sub[1..][j - 1] == sub[j];
      MergeSubmitted(SanitizeStep(stored, sub[0]), sub[1..], j - 1);
    }
  }

  /** The stored keys keep their order, new keys are appended after them, and
      no key comes from anywhere but the stored record or the submission;
      `roles` in particular is never added. */
  lemma {:induction false} MergeKeys(stored: Record, sub: seq<Entry>)
    ensures Keys(stored) <= Keys(Merge(stored, sub))
    ensures forall k :: k in Keys(Merge(stored, sub)) <==>
                          k in Keys(stored) || (k in Keys(sub) && k != RolesField)
    ensures RolesField in Keys(Merge(stored, sub)) <==> RolesField in Keys(stored)
    ensures Distinct(Keys(stored)) ==> Distinct(Keys(Merge(stored, sub)))
    decreases |sub|
  {
    if sub != [] {
      var next := SanitizeStep(stored, sub[0]);
      KeysTail(sub);
      if sub[0].key != RolesField {
        PutKeys(stored, sub[0].key, Coerce(sub[0].value));
        if Distinct(Keys(stored)) {
          PutDistinct(stored, sub[0].key, Coerce(sub[0].value));
        }
      }
      assert Keys(stored) <= Keys(next);
      MergeKeys(next, sub[1..]);
    }
  }

  /** Without a `roles` field the holders are left alone. */
  lemma {:induction false} HoldersUnchanged(holders: set<Role>, table: seq<Role>, sub: seq<Entry>)
    requires RolesField !in Keys(sub)
    ensures HoldersAfter(holders, table, sub) == holders
    decreases |sub|
  {
    if sub != [] {
      KeysTail(sub);
      HoldersUnchanged(holders, table, sub[1..]);
    }
  }

  /** A submitted `roles` field replaces the holders: the capability is taken
      from every role in the table and given to exactly the listed roles. */
  lemma {:induction false} HoldersReplaced(holders: set<Role>, table: seq<Role>, sub: seq<Entry>, j: nat)
    requires Distinct(Keys(sub)) && j < |sub| && sub[j].key == RolesField
    ensures HoldersAfter(holders, table, sub) == (holders - TableRoles(table)) + Granted(sub[j].value)
    ensures holders <= TableRoles(table) ==> HoldersAfter(holders, table, sub) == Granted(sub[j].value)
    decreases j
  {
    KeysTail(sub);
    if j == 0 {
      HoldersUnchanged(RolesStep(holders, table, sub[0]), table, sub[1..]);
    } else {
      assert sub[0].key != RolesField by {
        assert Keys(sub)[0] != Keys(sub)[j];
      }
      assert sub[1..][j - 1] == sub[j];
      HoldersReplaced(holders, table, sub[1..], j - 1);
    }
  }

  /** Submitting only the editor role leaves exactly the editor holding the
      capability. */
  lemma EditorOnlySubmission(holders: set<Role>, table: seq<Role>)
    requires holders <= TableRoles(table)
    ensures HoldersAfter(holders, table, [Entry(RolesField, List([Editor]))]) == {Editor}
  {
    var sub := [Entry(RolesField, List([Editor]))];
    HoldersReplaced(holders, table, sub, 0);
    assert Granted(List([Editor])) == {Editor};
  }

  // ---------------------------------------------------------------------
  // need_reset

  /** `$actual`: the roles of the table that hold the capability, in table
      order. */
  function InTableOrder(table: seq<Role>, holders: set<Role>): (actual: seq<Role>)
    decreases |table|
  {
    if table == [] then []
    else
      var last := table[|table| - 1];
      InTableOrder(table[..|table| - 1], holders) + (if last in holders then [last] else [])
  }

  /** x comes before y in the table. */
  ghost predicate Precedes(table: seq<Role>, x: Role, y: Role) {
    exists i, j :: 0 <= i < j < |table| && table[i] == x && table[j] == y
  }

  /** The comparison `need_reset` makes: the record minus its first field
      equals `defaults( 1 )`, and the holders in table order equal `caps()`,
      both under PHP's loose `==`. */
  predicate LooksReset(stored: Record, themeColor: string, table: seq<Role>, holders: set<Role>) {
    LooseSameArray(Defaults(themeColor, true), Shift(stored)) &&
    LooseEquals(List(InTableOrder(table, holders)), List(ManagerRoles()))
  }

  /** Appending one role to the table: x precedes y afterwards exactly when
      it did before, or the new role is y and x was already there. */
  lemma PrecedesSnoc(p: seq<Role>, z: Role, x: Role, y: Role)
    requires z !in p
    ensures Precedes(p + [z], x, y) <==> Precedes(p, x, y) || (z == y && x in p)
  {
    var table := p + [z];
    if Precedes(table, x, y) {
      var i, j :| 0 <= i < j < |table| && table[i] == x && table[j] == y;
      if j < |p| {
        assert p[i] == x && p[j] == y;
      } else {
        assert p[i] == x;
      }
    }
    if Precedes(p, x, y) {
      var i, j :| 0 <= i < j < |p| && p[i] == x && p[j] == y;
      assert table[i] == x && table[j] == y;
    }
    if z == y && x in p {
      var i :| 0 <= i < |p| && p[i] == x;
      assert table[i] == x && table[|p|] == y;
    }
  }

  lemma {:induction false} PairInTableOrder(table: seq<Role>, x: Role, y: Role)
    requires Distinct(table) && x != y
    ensures InTableOrder(table, {x, y}) ==
              if x in table && y in table then (if Precedes(table, x, y) then [x, y] else [y, x])
              else if x in table then [x] else if y in table then [y] else []
    decreases |table|
  {
    if table != [] {
      var n := |table| - 1;
      var p, z := table[..n], table[n];
      assert table == p + [z];
      assert Distinct(p);
      assert z !in p;
      PairInTableOrder(p, x, y);
      PrecedesSnoc(p, z, x, y);
      if z == x {
        assert !Precedes(p, x, y);
      }
      if z == y {
        assert !Precedes(p, x, y);
      }
    }
  }

  /** The stored roles list compares equal to `caps()` only when it is exactly
      `[administrator, editor]`. */
  lemma ManagerListEquals(actual: seq<Role>)
    ensures LooseEquals(List(actual), List(ManagerRoles())) <==> actual == ManagerRoles()
  {
    NotNumericByFirstChar(Administrator);
    NotNumericByFirstChar(Editor);
    LooseEqualsPlainList(ManagerRoles(), actual);
  }

  /** The default texts are neither empty nor numeric, so loose `==`
      against them is exact equality. */
  lemma DefaultTextsPlain(themeColor: string)
    ensures forall i :: 0 <= i < |Defaults(themeColor, true)| ==>
              var v := Defaults(themeColor, true)[i].value;
              v.Text? && v.s != "" && !IsNumeric(v.s)
  {
    var background := "#" + (if StringTruthy(themeColor) then themeColor else "ffffff");
    assert background[0] == '#';
    NotNumericByFirstChar(background);
    assert DefaultHeading[0] == 'M';
    NotNumericByFirstChar(DefaultHeading);
    assert DefaultDescription[0] == 'P';
    NotNumericByFirstChar(DefaultDescription);
  }

  /** A record compares equal to `defaults( 1 )` exactly when it has three
      entries holding the default background, heading and description, in any
      order. */
  lemma SameAsDefaults(themeColor: string, s: Record)
    ensures LooseSameArray(Defaults(themeColor, true), s) <==>
              |s| == 3 &&
              forall i :: 0 <= i < 3 ==>
                Defaults(themeColor, true)[i].key in Keys(s) &&
                Lookup(s, Defaults(themeColor, true)[i].key) == Defaults(themeColor, true)[i].value
  {
    var d := Defaults(themeColor, true);
    DefaultTextsPlain(themeColor);
    forall i | 0 <= i < 3 ensures LooseEquals(d[i].value, Lookup(s, d[i].key)) <==> Lookup(s, d[i].key) == d[i].value {
      LooseEqualsPlainText(d[i].value.s, Lookup(s, d[i].key));
    }
  }

  /** Right after a reset, whatever mode it kept, the reset button is hidden
      exactly when the site's role table lists administrator before editor. */
  lemma ResetStateLooksReset(themeColor: string, table: seq<Role>, mode: Value)
    requires Distinct(table) && Administrator in table && Editor in table
    ensures LooksReset(Put(Defaults(themeColor, false), ModeField, mode), themeColor, table, {Administrator, Editor}) <==>
            Precedes(table, Administrator, Editor)
  {
    var stored := Put(Defaults(themeColor, false), ModeField, mode);
    assert Shift(stored) == Defaults(themeColor, true);
    DefaultsShape(themeColor);
    assert Distinct(Keys(Defaults(themeColor, true))) by {
      assert Keys(Defaults(themeColor, true)) == Keys(Defaults(themeColor, false))[1..];
    }
    forall i | 0 <= i < 3
      ensures Lookup(Defaults(themeColor, true), Defaults(themeColor, true)[i].key) == Defaults(themeColor, true)[i].value
    {
      LookupAt(Defaults(themeColor, true), i);
    }
    SameAsDefaults(themeColor, Defaults(themeColor, true));
    PairInTableOrder(table, Administrator, Editor);
    ManagerListEquals(InTableOrder(table, {Administrator, Editor}));
  }

  // ---------------------------------------------------------------------
  // Stored mode and reset, as record facts

  /** The record a reset leaves behind is `defaults()` with only `mode`
      replaced: same keys in the same order, every other field at its
      default, and `defaults( 1 )` once the first field is shifted off. */
  lemma ResetRecord(themeColor: string, mode: Value)
    ensures Keys(Put(Defaults(themeColor, false), ModeField, mode)) == Keys(Defaults(themeColor, false))
    ensures Lookup(Put(Defaults(themeColor, false), ModeField, mode), ModeField) == mode
    ensures forall k :: k != ModeField ==>
              Lookup(Put(Defaults(themeColor, false), ModeField, mode), k) == Lookup(Defaults(themeColor, false), k)
    ensures Shift(Put(Defaults(themeColor, false), ModeField, mode)) == Defaults(themeColor, true)
  {
    var d := Defaults(themeColor, false);
    DefaultsShape(themeColor);
    PutKeys(d, ModeField, mode);
    forall k ensures Lookup(Put(d, ModeField, mode), k) == if k == ModeField then mode else Lookup(d, k) {
      PutLookup(d, ModeField, mode, k);
    }
  }

  /** Switching the curtain on and then off again gives back the record it
      started from. */
  lemma ToggleRoundTrip(r: Record)
    requires ModeField in Keys(r) && Lookup(r, ModeField) == Int(0)
    ensures Put(Put(r, ModeField, Int(1)), ModeField, Int(0)) == r
  {
    PutPut(r, ModeField, Int(1), Int(0));
    PutSame(r, ModeField);
  }

  /** The toggle stores `intval( $_GET['curtain'] )` as it is: `curtain=2`
      stores 2, not 1. */
  lemma ToggleDoesNotClamp(r: Record)
    ensures Lookup(Put(r, ModeField, Int(IntVal("2"))), ModeField) == Int(2)
  {
    IntValOfDecimal(2);
    assert IntToDecimal(2) == "2";
    PutLookup(r, ModeField, Int(IntVal("2")), ModeField);
  }

  // ---------------------------------------------------------------------
  // The host state the plugin works on

  datatype CapsAction = Grant | Revoke | Query

  datatype Redirect =
    | ToSettingsPage                        // admin_url( 'options-general.php?page=curtain' )
    | ToCurrentUrl(url: string, mode: string)  // add_query_arg( 'mode', $mode, $url )

  /** The reset branch of `admin_init` runs for `?reset&page=curtain`. */
  predicate ResetRequested(query: map<string, string>) {
    "reset" in query && "page" in query && query["page"] == "curtain"
  }

  /** The site as the plugin sees it: the stored `curtain` option (None when
      there is no such option), the roles holding `manage_curtain`, the role
      table in its order, and the theme's background colour. */
  class Site {
    const roleTable: seq<Role>
    const themeColor: string
    var store: Option<Record>
    var holders: set<Role>

    ghost predicate Valid()
      reads this
    {
      Distinct(roleTable) && Administrator in roleTable && Editor in roleTable &&
      holders <= TableRoles(roleTable) &&
      (store.Some? ==> Distinct(Keys(store.value)))
    }

    constructor (roleTable: seq<Role>, themeColor: string, store: Option<Record>, holders: set<Role>)
      requires Distinct(roleTable) && Administrator in roleTable && Editor in roleTable
      requires holders <= TableRoles(roleTable)
      requires store.Some? ==> Distinct(Keys(store.value))
      ensures Valid()
      ensures this.roleTable == roleTable && this.themeColor == themeColor
      ensures this.store == store && this.holders == holders
    {
      this.roleTable := roleTable;
      this.themeColor := themeColor;
      this.store := store;
      this.holders := holders;
    }

    /** `options()`: the stored record, empty when there is none. */
    function Options(): (record: Record)
      reads this
    {
      if store.Some? then store.value else []
    }

    /** `options( 'mode' )` */
    function Mode(): (mode: Value)
      reads this
    {
      Lookup(Options(), ModeField)
    }

    /** `init`: the gate applied to the stored mode. */
    function Init(loggedIn: bool, page: string): (r: Response)
      reads this
      ensures r == Proceed <==> !Truthy(Mode()) || loggedIn || page == LoginPage
    {
      Gate(Mode(), loggedIn, page)
    }

    /** The `add_cap` loop: each listed role gets the capability. */
    method GrantEach(roles: seq<Role>)
      requires forall r :: r in roles ==> r in roleTable
      modifies this`holders
      ensures holders == old(holders) + set r | r in roles
    {
      var i := 0;
      while i < |roles|
        invariant 0 <= i <= |roles|
        invariant holders == old(holders) + set r | r in roles[..i]
      {
        assert roles[..i + 1] == roles[..i] + [roles[i]];
        holders := holders + {roles[i]};
        i := i + 1;
      }
      assert roles[..|roles|] == roles;
    }

    /** The `remove_cap` loop over every role in the table. */
    method RevokeAll()
      modifies this`holders
      ensures holders == old(holders) - TableRoles(roleTable)
    {
      var i := 0;
      while i < |roleTable|
        invariant 0 <= i <= |roleTable|
        invariant holders == old(holders) - TableRoles(roleTable[..i])
      {
        assert roleTable[..i + 1] == roleTable[..i] + [roleTable[i]];
        holders := holders - {roleTable[i]};
        i := i + 1;
      }
      assert roleTable[..|roleTable|] == roleTable;
    }

    /** `caps( $add )`: 1 grants to administrator and editor, 2 revokes from
        every role, anything else returns the default manager roles. */
    method Caps(action: CapsAction) returns (defaults: Option<seq<Role>>)
      requires Administrator in roleTable && Editor in roleTable
      modifies this`holders
      ensures action == Grant ==> holders == old(holders) + {Administrator, Editor}
      ensures action == Revoke ==> holders == old(holders) - TableRoles(roleTable)
      ensures action == Query ==> holders == old(holders)
      ensures defaults == if action == Query then Some(ManagerRoles()) else None
    {
      if action == Grant {
        GrantEach(ManagerRoles());
        assert (set r | r in ManagerRoles()) == {Administrator, Editor};
        defaults := None;
      } else if action == Revoke {
        RevokeAll();
        defaults := None;
      } else {
        defaults := Some(ManagerRoles());
      }
    }

    /** `activate`: `add_option` writes the defaults only when there is no
        stored option yet; then the manager roles get the capability. */
    method Activate()
      requires Valid()
      modifies this
      ensures Valid()
      ensures store == if old(store).None? then Some(Defaults(themeColor, false)) else old(store)
      ensures holders == old(holders) + {Administrator, Editor}
    {
      if store.None? {
        DefaultsShape(themeColor);
        store := Some(Defaults(themeColor, false));
      }
      var _ := Caps(Grant);
    }

    /** `deactivate`: the option is deleted and the capability revoked from
        every role. */
    method Deactivate()
      requires Valid()
      modifies this
      ensures Valid()
      ensures store == None && holders == {}
    {
      store := None;
      var _ := Caps(Revoke);
    }

    /** `set_mode( $before )`: writes `mode` into the stored record and
        reports whether the stored value changed (what `update_option`
        returns). */
    method SetMode(before: Value) returns (changed: bool)
      requires Valid()
      modifies this`store
      ensures Valid()
      ensures store == Some(Put(old(Options()), ModeField, before))
      ensures changed <==> store != old(store)
    {
      var options := Put(Options(), ModeField, before);
      PutDistinct(Options(), ModeField, before);
      changed := store != Some(options);
      store := Some(options);
    }

    /** The reset branch of `admin_init`: deactivate, activate, then put the
        old mode back if it differs from the fresh default. */
    method Reset()
      requires Valid()
      modifies this
      ensures Valid()
      ensures store == Some(Put(Defaults(themeColor, false), ModeField, old(Mode())))
      ensures holders == {Administrator, Editor}
    {
      var before := Mode();
      Deactivate();
      Activate();
      DefaultsShape(themeColor);
      if Mode() != before {
        var _ := SetMode(before);
      } else {
        PutSame(Defaults(themeColor, false), ModeField);
      }
    }

    /** The toggle branch of `admin_init` for `?curtain=<value>`: stores
        `intval` of the value as the mode and, only when that changed the
        stored option, redirects to the current URL without its `curtain`
        parameter and with `mode=<value>`, and exits. */
    method Toggle(curtain: string, url: string) returns (redirect: Option<Redirect>)
      requires Valid()
      modifies this`store
      ensures Valid()
      ensures store == Some(Put(old(Options()), ModeField, Int(IntVal(curtain))))
      ensures redirect == if store != old(store)
                          then Some(ToCurrentUrl(QueryArgs.CurrentUrl(url, "curtain"), curtain))
                          else None
    {
      var changed := SetMode(Int(IntVal(curtain)));
      if changed {
        redirect := Some(ToCurrentUrl(QueryArgs.CurrentUrl(url, "curtain"), curtain));
      } else {
        redirect := None;
      }
    }

    /** `admin_init`: the reset branch (which redirects without exiting),
        then the toggle branch (which overrides that redirect and exits when
        it changed the mode). */
    method AdminInit(query: map<string, string>, url: string) returns (location: Option<Redirect>, exits: bool)
      requires Valid()
      modifies this
      ensures Valid()
      ensures holders == if ResetRequested(query) then {Administrator, Editor} else old(holders)
      ensures var afterReset := if ResetRequested(query)
                                then Some(Put(Defaults(themeColor, false), ModeField, old(Mode())))
                                else old(store);
              var record := if afterReset.Some? then afterReset.value else [];
              && store == (if "curtain" in query then Some(Put(record, ModeField, Int(IntVal(query["curtain"])))) else afterReset)
              && (exits <==> "curtain" in query && store != afterReset)
              && location == if exits then Some(ToCurrentUrl(QueryArgs.CurrentUrl(url, "curtain"), query["curtain"]))
                             else if ResetRequested(query) then Some(ToSettingsPage) else None
    {
      location, exits := None, false;
      if ResetRequested(query) {
        Reset();
        location := Some(ToSettingsPage);
      }
      if "curtain" in query {
        var toggled := Toggle(query["curtain"], url);
        if toggled.Some? {
          location, exits := toggled, true;
        }
      }
    }

    /** `settings::sanitize`: merges the submission over the stored record
        and, for a `roles` field, revokes the capability from every role and
        grants it to the listed ones. Returns the record to store. */
    method Sanitize(sub: seq<Entry>) returns (record: Record)
      requires Valid()
      requires RolesKnown(sub, roleTable)
      modifies this`holders
      ensures Valid()
      ensures record == Merge(Options(), sub)
      ensures holders == HoldersAfter(old(holders), roleTable, sub)
    {
      record := Options();
      var i := 0;
      while i < |sub|
        invariant 0 <= i <= |sub|
        invariant Merge(record, sub[i..]) == Merge(Options(), sub)
        invariant HoldersAfter(holders, roleTable, sub[i..]) == HoldersAfter(old(holders), roleTable, sub)
        invariant holders <= TableRoles(roleTable)
      {
        var e := sub[i];
        ghost var holdersBefore := holders;
        SanitizeUnfold(record, holders, roleTable, sub, i);
        if e.key == RolesField {
          RevokeAll();
          if e.value.List? {
            forall r | r in e.value.items ensures r in roleTable {
              assert r in Granted(e.value);
            }
            GrantEach(e.value.items);
          }
          assert holders == RolesStep(holdersBefore, roleTable, e);
        } else {
          record := Put(record, e.key, Coerce(e.value));
        }
        i := i + 1;
      }
      MergeKeys(Options(), sub);
    }

    /** Saving the settings form: the host passes the submission through the
        sanitizer and stores what it returns. */
    method SubmitSettings(sub: seq<Entry>)
      requires Valid()
      requires RolesKnown(sub, roleTable)
      modifies this
      ensures Valid()
      ensures store == Some(Merge(old(Options()), sub))
      ensures holders == HoldersAfter(old(holders), roleTable, sub)
    {
      var record := Sanitize(sub);
      MergeKeys(Options(), sub);
      store := Some(record);
    }

    /** `need_reset`: collects the holders in table order and reports whether
        the settings differ from a fresh reset. */
    method NeedReset() returns (show: bool)
      ensures show <==> !LooksReset(Options(), themeColor, roleTable, holders)
    {
      var actual: seq<Role> := [];
      var i := 0;
      while i < |roleTable|
        invariant 0 <= i <= |roleTable|
        invariant actual == InTableOrder(roleTable[..i], holders)
      {
        assert roleTable[..i + 1][..i] == roleTable[..i];
        if roleTable[i] in holders {
          actual := actual + [roleTable[i]];
        }
        i := i + 1;
      }
      assert roleTable[..|roleTable|] == roleTable;
      var options := Shift(Options());
      show := !(LooseSameArray(Defaults(themeColor, true), options) &&
                LooseEquals(List(actual), List(ManagerRoles())));
    }
  }

  // ---------------------------------------------------------------------
  // Scenarios built from the Site contracts alone

  /** After a reset the settings page hides its reset button exactly when the
      role table lists administrator before editor. */
  method ResetThenCheck(site: Site) returns (show: bool)
    requires site.Valid()
    modifies site
    ensures site.Valid()
    ensures !show <==> Precedes(site.roleTable, Administrator, Editor)
  {
    site.Reset();
    show := site.NeedReset();
    ResetStateLooksReset(site.themeColor, site.roleTable, old(site.Mode()));
  }

  /** Switching the curtain on and then off from the admin bar leaves the
      stored option as it was, and each switch redirects. */
  method ToggleOnThenOff(site: Site, url: string) returns (first: Option<Redirect>, second: Option<Redirect>)
    requires site.Valid()
    requires site.store.Some? && ModeField in Keys(site.store.value) && site.Mode() == Int(0)
    modifies site
    ensures site.store == old(site.store)
    ensures first == Some(ToCurrentUrl(QueryArgs.CurrentUrl(url, "curtain"), "1"))
    ensures second == Some(ToCurrentUrl(QueryArgs.CurrentUrl(url, "curtain"), "0"))
  {
    ghost var start := site.Options();
    IntValOfDecimal(1);
    assert IntToDecimal(1) == "1";
    IntValOfDecimal(0);
    assert IntToDecimal(0) == "0";
    first := site.Toggle("1", url);
    assert site.store != old(site.store) by {
      PutLookup(start, ModeField, Int(1), ModeField);
    }
    second := site.Toggle("0", url);
    ToggleRoundTrip(start);
    PutLookup(start, ModeField, Int(1), ModeField);
    PutLookup(Put(start, ModeField, Int(1)), ModeField, Int(0), ModeField);
  }
}
