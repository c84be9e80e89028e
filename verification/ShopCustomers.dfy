/** One Telegram account may be a customer of several shops,
    `migrations/versions/0009_reseller_customers.py`.

    A NULL shop is the platform's own bot. */
module ShopCustomers {
  import opened Options
  import Sql

  datatype User = User(telegramId: int, shop: Option<string>)

  type Table = map<string, User>

  /** The old constraint: one row per Telegram account. */
  predicate UniqueAccounts(rows: Table) {
    forall i <- rows, j <- rows :: rows[i].telegramId == rows[j].telegramId ==> i == j
  }

  /** `uq_users_platform_telegram_id`, over the rows without a shop. */
  predicate PlatformIndex(rows: Table) {
    forall i <- rows, j <- rows ::
      rows[i].shop.None? && rows[j].shop.None? && rows[i].telegramId == rows[j].telegramId ==> i == j
  }

  /** `uq_users_reseller_telegram_id`, over the rows with one. */
  predicate ResellerIndex(rows: Table) {
    forall i <- rows, j <- rows ::
      (rows[i].shop.Some? && rows[j].shop.Some? && Sql.Equal(rows[i].shop, rows[j].shop).Yes?
       && rows[i].telegramId == rows[j].telegramId) ==> i == j
  }

  /** The rule the pair is for: one row per account and shop, ours being one. */
  predicate OnePerShop(rows: Table) {
    forall i <- rows, j <- rows ::
      rows[i].shop == rows[j].shop && rows[i].telegramId == rows[j].telegramId ==> i == j
  }

  /** The composite unique constraint that was not used: SQL never finds two
      NULLs equal. */
  predicate CompositeUnique(rows: Table) {
    forall i <- rows, j <- rows ::
      Sql.Equal(rows[i].shop, rows[j].shop).Yes? && rows[i].telegramId == rows[j].telegramId ==> i == j
  }

  /** The two partial indexes together say exactly the rule. */
  lemma PairIsTheRule(rows: Table)
    ensures PlatformIndex(rows) && ResellerIndex(rows) <==> OnePerShop(rows)
  {
  }

  /** The composite constraint says less: exactly what it lets through besides
      are platform customers doubled. */
  lemma CompositeSaysLess(rows: Table)
    ensures OnePerShop(rows) <==> CompositeUnique(rows) && PlatformIndex(rows)
    ensures var doubled := map["a" := User(7, None), "b" := User(7, None)];
            CompositeUnique(doubled) && !OnePerShop(doubled)
  {
    PairIsTheRule(rows);
    var doubled := map["a" := User(7, None), "b" := User(7, None)];
    assert "a" in doubled && "b" in doubled && "a" != "b";
  }

  datatype Schema = OneShop | ManyShops

  class Users {
    var rows: Table
    var schema: Schema

    /** What the constraints in force promise of the rows. */
    ghost predicate Valid()
      reads this
    {
      match schema
      case OneShop => UniqueAccounts(rows) && forall id <- rows :: rows[id].shop.None?
      case ManyShops => OnePerShop(rows)
    }

    constructor ()
      ensures Valid() && rows == map[] && schema == OneShop
    {
      rows, schema := map[], OneShop;
    }

    /** The new column is NULL in every row, so nothing the old constraint
        allowed can stop the new indexes. */
    method Upgrade() returns (ok: bool)
      requires Valid() && schema == OneShop
      modifies this`schema
      ensures ok && schema == ManyShops && Valid()
    {
      ok := PlatformIndex(rows) && ResellerIndex(rows);
      PairIsTheRule(rows);
      if ok {
        schema := ManyShops;
      }
    }

    /** An insert is admitted exactly when the shop does not have the account
        yet, and leaves the rule in force. */
    method Insert(id: string, user: User) returns (ok: bool)
      requires Valid() && schema == ManyShops && id !in rows
      modifies this`rows
      ensures Valid()
      ensures ok <==> forall i <- old(rows) ::
                !(old(rows)[i].shop == user.shop && old(rows)[i].telegramId == user.telegramId)
      ensures rows == if ok then old(rows)[id := user] else old(rows)
    {
      var after := rows[id := user];
      PairIsTheRule(after);
      ok := PlatformIndex(after) && ResellerIndex(after);
      if ok {
        forall i | i in rows ensures !(rows[i].shop == user.shop && rows[i].telegramId == user.telegramId) {
          assert after[i] == rows[i] && after[id] == user;
        }
        rows := after;
      }
    }

    /** Deleting a reseller sets the shop of its customers to NULL.  That goes
        through exactly when none of them is a platform customer too; otherwise
        the platform's index refuses it and the reseller stays. */
    method DeleteReseller(shop: string) returns (ok: bool)
      requires Valid() && schema == ManyShops
      modifies this`rows
      ensures Valid()
      ensures ok <==> !SomebodyInBoth(old(rows), shop)
      ensures rows == if ok then Released(old(rows), shop) else old(rows)
    {
      var after := Released(rows, shop);
      PairIsTheRule(after);
      ok := PlatformIndex(after) && ResellerIndex(after);
      ReleasedKeepsRule(rows, shop);
      if ok {
        rows := after;
      }
    }

    /** Back to one shop: every reseller's customers are removed, and then the
        old constraint always holds.  Nobody else is touched. */
    method Downgrade() returns (ok: bool)
      requires Valid() && schema == ManyShops
      modifies this
      ensures ok && schema == OneShop && Valid()
      ensures forall i <- rows, j <- rows :: rows[i].telegramId == rows[j].telegramId ==> i == j
      ensures rows == map id | id in old(rows) && old(rows)[id].shop.None? :: old(rows)[id]
    {
      rows := map id | id in rows && !rows[id].shop.Some? :: rows[id];
      ok := UniqueAccounts(rows);
      if ok {
        schema := OneShop;
      }
    }
  }

  function Released(rows: Table, shop: string): Table {
    map id | id in rows :: if rows[id].shop == Some(shop) then rows[id].(shop := None) else rows[id]
  }

  /** Some account is a customer of the shop and of the platform. */
  predicate SomebodyInBoth(rows: Table, shop: string) {
    exists i <- rows, j <- rows :: AreInBoth(rows[i], rows[j], shop)
  }

  predicate AreInBoth(theirs: User, ours: User, shop: string) {
    theirs.shop == Some(shop) && ours.shop == None && theirs.telegramId == ours.telegramId
  }

  lemma ReleasedKeepsRule(rows: Table, shop: string)
    requires OnePerShop(rows)
    ensures OnePerShop(Released(rows, shop)) <==> !SomebodyInBoth(rows, shop)
  {
    var after := Released(rows, shop);
    if SomebodyInBoth(rows, shop) {
      var i, j :| i in rows && j in rows && AreInBoth(rows[i], rows[j], shop);
      assert after[i].shop == after[j].shop && after[i].telegramId == after[j].telegramId && i != j;
    } else {
      forall i, j | i in after && j in after && after[i] == after[j] ensures i == j {
        assert AreInBoth(rows[i], rows[j], shop) || AreInBoth(rows[j], rows[i], shop) || rows[i] == rows[j];
      }
    }
  }

  const OURS_AND_THEIRS: Table := map["a" := User(7, None), "b" := User(7, Some("shop"))]

  /** A table the rule allows and that shop's deletion breaks: one account that is
      a customer of both. */
  lemma BothShopsCustomer()
    ensures OnePerShop(OURS_AND_THEIRS) && !OnePerShop(Released(OURS_AND_THEIRS, "shop"))
  {
    var rows := OURS_AND_THEIRS;
    assert "a" in rows && "b" in rows && AreInBoth(rows["b"], rows["a"], "shop");
    ReleasedKeepsRule(rows, "shop");
  }
}
