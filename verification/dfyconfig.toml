includes = ["**/*.dfy"]

[options]
warn-contradictory-assumptions = true
allow-warnings = true
