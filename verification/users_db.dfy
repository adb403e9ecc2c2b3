/**
 * The subscribers table: one row (UserName, Mail, City) per mail address
 * (Mail is UNIQUE), changed by subscribe and unsubscribe and filtered by city
 * when warnings and summaries are mailed out.
 */
module UsersDb {

  /** The columns of a subscriber row other than its key, Mail. */
  datatype Subscriber = Subscriber(userName: string, city: string)

  /** The users table, keyed by Mail; a map holds at most one row per mail. */
  type Users = map<string, Subscriber>

  /**
   * subscribe(UserName, Mail, City): a known mail only moves to the new city
   * and keeps its user name; an unknown mail gets a new row.
   */
  function Subscribed(users: Users, userName: string, mail: string, city: string): (after: Users)
    ensures after.Keys == users.Keys + {mail}
    ensures after[mail] == Subscriber(if mail in users then users[mail].userName else userName, city)
  {
    if mail in users then users[mail := Subscriber(users[mail].userName, city)]
    else users[mail := Subscriber(userName, city)]
  }

  /** unsubscribe(Mail): remove the row with that mail, if there is one. */
  function Unsubscribed(users: Users, mail: string): (after: Users)
    ensures after.Keys == users.Keys - {mail}
  {
    users - {mail}
  }

  /** get_users_by_city(city): the (UserName, Mail) pairs of the rows whose City is city. */
  function UsersByCity(users: Users, city: string): (pairs: set<(string, string)>)
    ensures forall p :: p in pairs <==> p.1 in users && users[p.1] == Subscriber(p.0, city)
  {
    set m | m in users && users[m].city == city :: (users[m].userName, m)
  }

  /**
   * After subscribe the mail is listed under the new city; a known mail keeps
   * its user name and the row count, an unknown mail adds exactly one row;
   * every other row is unchanged.
   */
  lemma SubscribeSpec(users: Users, userName: string, mail: string, city: string)
    ensures var after := Subscribed(users, userName, mail, city);
      && mail in after && after[mail].city == city
      && after[mail].userName == (if mail in users then users[mail].userName else userName)
      && after.Keys == users.Keys + {mail}
      && |after| == (if mail in users then |users| else |users| + 1)
      && forall m :: m in users && m != mail ==> after[m] == users[m]
  {
  }

  /** After unsubscribe the mail has no row, and every other row is unchanged. */
  lemma UnsubscribeSpec(users: Users, mail: string)
    ensures var after := Unsubscribed(users, mail);
      && mail !in after
      && after.Keys == users.Keys - {mail}
      && |after| == (if mail in users then |users| - 1 else |users|)
      && forall m :: m in after ==> after[m] == users[m]
  {
  }

  /** Unsubscribing a mail that has no row leaves the table as it is. */
  lemma UnsubscribeAbsentNoop(users: Users, mail: string)
    requires mail !in users
    ensures Unsubscribed(users, mail) == users
  {
  }

  /** Subscribing the same mail to the same city twice is the same as once. */
  lemma SubscribeIdempotent(users: Users, userName: string, mail: string, city: string)
    ensures Subscribed(Subscribed(users, userName, mail, city), userName, mail, city) == Subscribed(users, userName, mail, city)
  {
  }

  /** Unsubscribing a mail that was just subscribed for the first time restores the table. */
  lemma UnsubscribeUndoesNewSubscribe(users: Users, userName: string, mail: string, city: string)
    requires mail !in users
    ensures Unsubscribed(Subscribed(users, userName, mail, city), mail) == users
  {
    var after := Unsubscribed(Subscribed(users, userName, mail, city), mail);
    assert after.Keys == users.Keys;
  }

  /** After subscribe(U, M, C), the listing for C contains M, under the name M is stored with. */
  lemma SubscribeThenListed(users: Users, userName: string, mail: string, city: string)
    ensures var name := if mail in users then users[mail].userName else userName;
      (name, mail) in UsersByCity(Subscribed(users, userName, mail, city), city)
  {
  }

  /** Moving a subscriber to another city takes the mail out of the old city's listing. */
  lemma SubscribeMovesCity(users: Users, userName: string, mail: string, city: string, other: string)
    requires other != city
    ensures forall p :: p in UsersByCity(Subscribed(users, userName, mail, city), other) ==> p.1 != mail
  {
  }

  /** After unsubscribe(M), no city's listing contains M. */
  lemma UnsubscribeThenUnlisted(users: Users, mail: string)
    ensures forall city, p :: p in UsersByCity(Unsubscribed(users, mail), city) ==> p.1 != mail
  {
  }

  /** Subscribing or unsubscribing one mail leaves every other mail's listing as it was. */
  lemma OtherMailsUnaffected(users: Users, userName: string, mail: string, city: string, c: string, p: (string, string))
    requires p.1 != mail
    ensures p in UsersByCity(Subscribed(users, userName, mail, city), c) <==> p in UsersByCity(users, c)
    ensures p in UsersByCity(Unsubscribed(users, mail), c) <==> p in UsersByCity(users, c)
  {
  }

  /** The users table of the subscriber database. */
  class UserStore {
    var users: Users

    constructor ()
      ensures users == map[]
    {
      users := map[];
    }

    /** subscribe: look the mail up, then update its City or insert a new row. */
    method Subscribe(userName: string, mail: string, city: string)
      modifies this
      ensures users == Subscribed(old(users), userName, mail, city)
    {
      if mail in users {
        users := users[mail := Subscriber(users[mail].userName, city)];
      } else {
        users := users[mail := Subscriber(userName, city)];
      }
    }

    /** unsubscribe: look the mail up, and delete its row if there is one. */
    method Unsubscribe(mail: string)
      modifies this
      ensures users == Unsubscribed(old(users), mail)
    {
      if mail in users {
        users := users - {mail};
      }
    }

    /** get_users_by_city: a read of the table that changes nothing. */
    function GetUsersByCity(city: string): (pairs: set<(string, string)>)
      reads this
      ensures forall p :: p in pairs <==> p.1 in users && users[p.1] == Subscriber(p.0, city)
    {
      UsersByCity(users, city)
    }
  }
}
