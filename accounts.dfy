/**
 * The `quota` column of the users table, which both the redemption engine and
 * the check-in engine credit. Only the column the core touches is modelled.
 */
module Accounts {

  class Users {
    /** Quota balance by user id; a user id that is not a key has no row. */
    var quota: map<int, int>

    constructor (quota: map<int, int>)
      ensures this.quota == quota
    {
      this.quota := quota;
    }
  }

  /**
   * `UPDATE users SET quota = quota + amount WHERE id = userId`. An update
   * that matches no row is not an error: it changes nothing.
   */
  function Credit(quota: map<int, int>, userId: int, amount: int): (q: map<int, int>)
    ensures q.Keys == quota.Keys
    ensures userId in quota ==> q[userId] == quota[userId] + amount
    ensures forall u <- quota :: u != userId ==> q[u] == quota[u]
  {
    if userId in quota then quota[userId := quota[userId] + amount] else quota
  }
}
