/** A club and its badges: a layout and a value that a repository asks for nothing more of
    (sql/repository.go). */
module ClubExample {
  import opened Basics
  import opened Layouts
  import opened Aggregates
  import opened RoundTrip
  import opened Placing
  import opened SaveRuns
  import opened ReadBack
  import opened Repositories

  function Clubs(): Table { Table("club", ["id"], ["id"], "", None) }

  function Badges(): Table {
    Table("badge", ["id", "code", "club_id", "position"], ["club_id", "id"], "position",
          Some(Link("club", ["club_id"], ["id"], "badges", false, "")))
  }

  /** A badge, by its identity and code. */
  function Badge(id: int, code: string): Value { Object(map["id" := Integer(id), "code" := Text(code)]) }

  function Club(id: int, badges: seq<Value>): Members { map["id" := Integer(id), "badges" := List(badges)] }

  lemma NamesApart(a: string, b: string)
    requires |a| != |b| || (a != "" && a[0] != b[0])
    ensures a != b
  {
  }

  lemma BadgesBeneath()
    ensures LaidBeneath(Badges(), Clubs()) && !Own(Clubs(), "badges")
  {
    var columns := Badges().columns;
    NamesApart("id", "club_id");
    NamesApart("id", "position");
    NamesApart("position", "club_id");
    NamesApart("badges", "id");
    assert Badges().key[..1] == ["club_id"];
    assert columns[0] == "id" && columns[2] == "club_id" && columns[3] == "position";
  }

  /** The layout is one that saves and reads take. */
  lemma ClubsAreLaid()
    ensures WellLaid([Clubs(), Badges()]) && Linked([Clubs(), Badges()]) && Nested([Clubs(), Badges()])
  {
    var laid := [Clubs(), Badges()];
    BadgesBeneath();
    NamesApart("club", "badge");
    assert HolderOf(laid, 1) == 0;
    assert "" !in laid[0].columns && "" !in laid[1].columns;
  }

  /** The rows of one club and its badges. */
  lemma ClubParts(id: int, badges: seq<Value>)
    ensures Linked([Clubs(), Badges()])
    ensures var laid, root := [Clubs(), Badges()], Club(id, badges);
      && PartsAt(laid, root, 1) == PartsFor(Badges(), PartsAt(laid, root, 0)[0])
      && |PartsAt(laid, root, 0)| == 1 && |PartsAt(laid, root, 1)| == |badges|
  {
    ClubsAreLaid();
    var laid, root := [Clubs(), Badges()], Club(id, badges);
    var holders := PartsAt(laid, root, 0);
    assert holders[..0] == [] && HolderOf(laid, 1) == 0;
    NamesApart("id", "badges");
    assert Held(Get(root, "badges")) == badges;
    assert PartsBeneath(Badges(), holders) == [] + PartsFor(Badges(), holders[0]);
  }

  /** Badges of identities of their own. */
  ghost predicate BadgesApart(badges: seq<Value>) {
    && (forall i :: 0 <= i < |badges| ==> exists id, code :: badges[i] == Badge(id, code))
    && forall i, j :: 0 <= i < j < |badges| ==> Get(AsMembers(badges[i]), "id") != Get(AsMembers(badges[j]), "id")
  }

  lemma BadgeKey(holder: Row, position: nat, badge: Value)
    ensures KeyOf(Badges(), RowFor(Badges(), holder, position, badge))[1] == Get(AsMembers(badge), "id")
  {
    NamesApart("id", "club_id");
    NamesApart("id", "position");
    var link := Badges().parent.value;
    assert Referring(link, holder, 1) == Referring(link, holder, 0)["club_id" := Get(holder, "id")];
    assert "id" == Badges().columns[0];
  }

  lemma BadgesTellApart(holder: Part, badges: seq<Value>)
    requires BadgesApart(badges) && Held(Get(holder.entity, "badges")) == badges
    ensures DistinctKeys(Badges(), PartsFor(Badges(), holder))
  {
    var parts := PartsFor(Badges(), holder);
    forall i, j | 0 <= i < j < |parts| ensures KeyOf(Badges(), parts[i].row) != KeyOf(Badges(), parts[j].row) {
      BadgeKey(holder.row, i, badges[i]);
      BadgeKey(holder.row, j, badges[j]);
    }
  }

  /** A club with any such badges is one that a repository saves. */
  lemma ClubIsSavable(id: int, badges: seq<Value>)
    requires BadgesApart(badges)
    ensures Savable([Clubs(), Badges()], Club(id, badges))
  {
    var laid, root := [Clubs(), Badges()], Club(id, badges);
    ClubsAreLaid();
    ClubParts(id, badges);
    NamesApart("id", "badges");
    BadgesTellApart(PartsAt(laid, root, 0)[0], badges);
    assert DistinctKeys(laid[0], PartsAt(laid, root, 0)) && DistinctKeys(laid[1], PartsAt(laid, root, 1));
  }

  lemma {:induction false} GroupNoLonger(rows: seq<Row>, columns: seq<string>, holder: Key)
    ensures |Group(rows, columns, holder)| <= |rows|
  {
    if rows != [] { GroupNoLonger(rows[..|rows| - 1], columns, holder); }
  }

  lemma ListsNoLonger(table: Table, rows: seq<Row>, most: nat)
    requires table.parent.Some? && |rows| <= most
    ensures forall holder: Key :: |ListOf(table, rows, holder)| <= most
  {
    forall holder: Key ensures |ListOf(table, rows, holder)| <= most {
      GroupNoLonger(rows, Columns(table), holder);
    }
  }

  lemma ClubIsShort(id: int, badges: seq<Value>)
    requires |badges| <= 0x20_0000
    ensures Short([Clubs(), Badges()], Club(id, badges))
  {
    ClubsAreLaid();
    ClubParts(id, badges);
    var rows := TakenApart([Clubs(), Badges()], Club(id, badges));
    assert |rows[0]| == 1 && |rows[1]| == |badges|;
    ListsNoLonger(Badges(), rows[1], 0x20_0000);
  }

  /** A club saved in a new database, then stored there. */
  method SaveClub(id: int, badges: seq<Value>) returns (clubs: Repository)
    requires BadgesApart(badges) && |badges| <= 0x20_0000
    ensures clubs.Valid() && clubs.laid == [Clubs(), Badges()] && clubs.IsStored(Club(id, badges))
  {
    ClubsAreLaid();
    ClubIsSavable(id, badges);
    ClubIsShort(id, badges);
    clubs := new Repository([Clubs(), Badges()]);
    var ok, statements := clubs.Save(Club(id, badges), [[], []]);
  }
}
