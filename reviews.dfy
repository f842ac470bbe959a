/**
 The reviews page: every review row, in table order, labelled with its
 author's username, or "Anonymous" when the author's user row is gone.
 */
module ReviewService {
  import opened Records
  import opened Lookups

  /** A review row with the username shown beside it. */
  datatype ReviewView = ReviewView(review: Review, username: string)

  /** Labels each review with its author, the way the page labels each freshly read row in turn. */
  method ReviewsPage(reviews: seq<Review>, users: seq<User>) returns (views: seq<ReviewView>)
    ensures |views| == |reviews|
    ensures forall i :: 0 <= i < |reviews| ==>
      views[i] == ReviewView(reviews[i], UsernameOr(users, reviews[i].userId, "Anonymous"))
  {
    views := [];
    for i := 0 to |reviews|
      invariant |views| == i
      invariant forall k :: 0 <= k < i ==>
        views[k] == ReviewView(reviews[k], UsernameOr(users, reviews[k].userId, "Anonymous"))
    {
      views := views + [ReviewView(reviews[i], UsernameOr(users, reviews[i].userId, "Anonymous"))];
    }
  }
}
