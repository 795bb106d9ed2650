/** The board's seed data (the defaults used when storage holds nothing). All seven seed
    tasks share one placeholder description. */
module Seed {
  import opened Wrappers
  import opened Model

  const Lorem := "Lorem ipsum dolor sit amet, consectetur adipiscing elit, sed do eiusmod tempor incididunt ut labore et dolore magna aliqua. Ut enim ad minim veniam, quis nostrud exercitation ullamco laboris nisi ut aliquip ex ea commodo consequat. Duis aute irure dolor in reprehenderit in voluptate velit esse cillum dolore eu fugiat nulla pariatur. Excepteur sint occaecat cupidatat non proident, sunt in culpa qui officia deserunt mollit anim id est laborum"

  const Topics: seq<Topic> := [
    Topic("1", "To Do"),
    Topic("2", "In Work"),
    Topic("3", "Review"),
    Topic("4", "Done")
  ]

  const Members: seq<Member> := [
    Member("user1", "William Gilbert", None,
           "https://images.unsplash.com/photo-1570295999919-56ceb5ecca61?ixlib=rb-1.2.1&ixid=MnwxMjA3fDB8MHxwaG90by1wYWdlfHx8fGVufDB8fHx8&auto=format&fit=crop&w=2960&q=80"),
    Member("user2", "Willebrod Snell", None,
           "https://images.unsplash.com/photo-1598641795816-a84ac9eac40c?ixlib=rb-1.2.1&ixid=MnwxMjA3fDB8MHxwaG90by1wYWdlfHx8fGVufDB8fHx8&auto=format&fit=crop&w=1162&q=80"),
    Member("user3", "Blaise Pascal", None,
           "https://images.unsplash.com/photo-1485290334039-a3c69043e517?ixlib=rb-1.2.1&ixid=MnwxMjA3fDB8MHxwaG90by1wYWdlfHx8fGVufDB8fHx8&auto=format&fit=crop&w=1160&q=80"),
    Member("user4", "Robert Hooke", None,
           "https://images.unsplash.com/photo-1595760780346-f972eb49709f?ixlib=rb-1.2.1&ixid=MnwxMjA3fDB8MHxwaG90by1wYWdlfHx8fGVufDB8fHx8&auto=format&fit=crop&w=1054&q=80"),
    Member("user5", "Leonard Euler", None,
           "https://images.unsplash.com/photo-1597223557154-721c1cecc4b0?ixlib=rb-1.2.1&ixid=MnwxMjA3fDB8MHxwaG90by1wYWdlfHx8fGVufDB8fHx8&auto=format&fit=crop&w=1160&q=80"),
    Member("user6", "Marie Curie", None,
           "https://images.unsplash.com/photo-1542909168-82c3e7fdca5c?ixlib=rb-1.2.1&ixid=MnwxMjA3fDB8MHxwaG90by1wYWdlfHx8fGVufDB8fHx8&auto=format&fit=crop&w=1160&q=80"),
    Member("user7", "Enrico Fermi", None,
           "https://images.unsplash.com/photo-1520451644838-906a72aa7c86?ixlib=rb-1.2.1&ixid=MnwxMjA3fDB8MHxwaG90by1wYWdlfHx8fGVufDB8fHx8&auto=format&fit=crop&w=1100&q=80"),
    Member("user8", "Lucas Brinton (you)", None,
           "https://images.unsplash.com/photo-1472099645785-5658abf4ff4e?ixlib=rb-1.2.1&ixid=eyJhcHBfaWQiOjEyMDd9&auto=format&fit=facearea&facepad=2&w=256&h=256&q=80")
  ]

  const Tasks: seq<Task> := [
    Task("1", "Design", "UI Design 0",
         [MemberId("user6"), MemberId("user2"), MemberId("user3"), MemberId("user4"), MemberId("user5")],
         "Low", "1", Lorem,
         [Comment("Great", MemberId("user3"), "17/07/2022, 20:29:40"), Comment("Great idea", MemberId("user2"), "19/07/2022, 22:29:45")]),
    Task("2", "Design", "UI Design 1",
         [MemberId("user4"), MemberId("user7")],
         "Normal", "1", Lorem,
         []),
    Task("3", "Design", "UI Design 2",
         [MemberId("user1")],
         "Low", "1", Lorem,
         [Comment("Great", MemberId("user3"), "19/07/2022, 22:29:45"), Comment("Great idea", MemberId("user2"), "19/07/2022, 22:29:45")]),
    Task("4", "Research", "User Interview",
         [MemberId("user5"), MemberId("user2")],
         "High", "2", Lorem,
         [Comment("Great idea", MemberId("user3"), "19/07/2022, 22:29:45")]),
    Task("5", "Design system", "Style Guide",
         [MemberId("user1"), MemberId("user2"), MemberId("user4"), MemberId("user5")],
         "High", "3", Lorem,
         [Comment("Great", MemberId("user3"), "19/07/2022, 22:29:45"), Comment("Great idea", MemberId("user5"), "19/07/2022, 22:29:45"), Comment("Great idea", MemberId("user1"), "19/07/2022, 22:29:45"), Comment("Great idea", MemberId("user2"), "19/07/2022, 22:29:45")]),
    Task("6", "Presentation", "Animations",
         [MemberId("user2"), MemberId("user3"), MemberId("user4"), MemberId("user5")],
         "Normal", "4", Lorem,
         [Comment("Good work", MemberId("user1"), "19/07/2022, 22:29:45"), Comment("Great idea", MemberId("user2"), "19/07/2022, 22:29:45")]),
    Task("7", "Presentation", "Mockups",
         [MemberId("user1"), MemberId("user2"), MemberId("user3"), MemberId("user4"), MemberId("user5"), MemberId("user6"), MemberId("user7")],
         "Low", "4", Lorem,
         [Comment("Great", MemberId("user6"), "19/07/2022, 22:29:45"), Comment("Great idea", MemberId("user2"), "19/07/2022, 22:29:45")])
  ]
}
